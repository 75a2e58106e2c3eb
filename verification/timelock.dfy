/** The cooldown timelock over runs: an increase takes effect only as the value of a proposal
    that has stood, untouched, for TIMELOCK_SLOTS. */
module Timelock {
  import opened Numbers
  import opened Instructions
  import opened Effects
  import opened Invariants
  import opened Settings

  predicate TouchesProposal(i: Instruction) {
    i.ProposeCooldownIncrease? || i.CommitCooldownIncrease? || i.CancelCooldownIncrease?
  }

  /** Step k of the run proposed `slots` at slot `at`, and no later step of the run replaced,
      committed or cancelled it. */
  ghost predicate Stands(w: World, steps: seq<Step>, k: nat, slots: u64, at: u64) {
    && k < |steps|
    && steps[k].i == ProposeCooldownIncrease(slots)
    && Accepted(w, steps, k)
    && Run(w, steps[..k]).slot == at
    && (forall j :: k < j < |steps| && TouchesProposal(steps[j].i) ==> !Accepted(w, steps, j))
  }

  /** Any other step leaves the three cooldown fields alone, but for an immediate decrease. */
  lemma OtherStepsKeepProposal(w: World, s: Step)
    requires Inv(w)
    requires !(Succeeds(w, s) && TouchesProposal(s.i))
    ensures var p, q := w.pool, Apply(w, s).pool;
            && q.pendingCooldown == p.pendingCooldown && q.proposedAt == p.proposedAt
            && q.cooldown <= p.cooldown
  {
    hide Inv;
    if Succeeds(w, s) && IsConfig(s.i) {
      hide ExecDeposit;
      hide ExecDepositJunior;
      hide ExecWithdraw;
    } else {
      hide Exec;
      OnlyConfigMovesSettings(w, s);
    }
  }

  lemma StandsExtends(w: World, before: seq<Step>, s: Step, k: nat, slots: u64, at: u64)
    requires Stands(w, before, k, slots, at)
    requires !(Succeeds(Run(w, before), s) && TouchesProposal(s.i))
    ensures Stands(w, before + [s], k, slots, at)
  {
    hide Accepted;
    hide Run;
    hide Succeeds;
    var steps := before + [s];
    assert steps[..k] == before[..k];
    AcceptedInPrefix(w, before, s, k);
    forall j | k < j < |steps| && TouchesProposal(steps[j].i)
      ensures !Accepted(w, steps, j)
    {
      AcceptedInPrefix(w, before, s, j);
    }
  }

  lemma ProposalStep(w: World, s: Step)
    requires Succeeds(w, s) && TouchesProposal(s.i)
    ensures var q := Apply(w, s).pool;
            if s.i.ProposeCooldownIncrease? then q.pendingCooldown == s.i.slots && q.proposedAt == w.slot
            else q.proposedAt == 0
    ensures s.i.CommitCooldownIncrease? ==>
              && w.pool.proposedAt != 0 && w.pool.proposedAt + TIMELOCK_SLOTS <= w.slot
              && Apply(w, s).pool.cooldown == w.pool.pendingCooldown
    ensures !s.i.CommitCooldownIncrease? ==> Apply(w, s).pool.cooldown == w.pool.cooldown
  {
  }

  /** An active proposal is always the standing one: some accepted step of the run made it,
      at the recorded slot, with the recorded value. */
  lemma {:induction false} ActiveProposalStands(w: World, steps: seq<Step>) returns (k: nat)
    requires Inv(w) && w.pool.proposedAt == 0
    ensures var p := Run(w, steps).pool;
            p.proposedAt != 0 ==> Stands(w, steps, k, p.pendingCooldown, p.proposedAt)
    decreases |steps|
  {
    hide Inv;
    hide Exec;
    if steps == [] {
      return 0;
    }
    var before, s := steps[..|steps| - 1], steps[|steps| - 1];
    assert steps == before + [s];
    var e := Run(w, before);
    k := ActiveProposalStands(w, before);
    RunKeepsInv(w, before);
    if Succeeds(e, s) && TouchesProposal(s.i) {
      ProposalStep(e, s);
      if s.i.ProposeCooldownIncrease? {
        k := |before|;
      }
    } else {
      OtherStepsKeepProposal(e, s);
      if e.pool.proposedAt != 0 {
        StandsExtends(w, before, s, k, e.pool.pendingCooldown, e.pool.proposedAt);
      }
    }
  }

  /** Whenever the cooldown rises, that exact value was proposed at least TIMELOCK_SLOTS
      earlier by an accepted step of the run and has stood untouched since. */
  lemma CooldownRisesOnlyAfterTimelock(w: World, steps: seq<Step>, s: Step) returns (k: nat)
    requires Inv(w) && w.pool.proposedAt == 0
    requires Apply(Run(w, steps), s).pool.cooldown > Run(w, steps).pool.cooldown
    ensures var e := Run(w, steps);
            && Stands(w, steps, k, Apply(e, s).pool.cooldown, e.pool.proposedAt)
            && e.pool.proposedAt + TIMELOCK_SLOTS <= e.slot
  {
    hide Inv;
    hide Exec;
    hide Stands;
    hide Run;
    k := ActiveProposalStands(w, steps);
    RunKeepsInv(w, steps);
    if Succeeds(Run(w, steps), s) && TouchesProposal(s.i) {
      ProposalStep(Run(w, steps), s);
    } else {
      OtherStepsKeepProposal(Run(w, steps), s);
    }
  }

  /** In every reachable state the cooldown is in range and an active proposal exceeds it. */
  lemma CooldownInRange(init: World, steps: seq<Step>)
    requires Init(init)
    ensures var p := Run(init, steps).pool;
            && 1 <= p.cooldown <= MAX_COOLDOWN_SLOTS
            && (p.proposedAt != 0 ==> p.cooldown < p.pendingCooldown <= MAX_COOLDOWN_SLOTS)
  {
    InitInv(init);
    RunKeepsInv(init, steps);
  }

  // ------------------------------------------------------ withdrawal cooldown

  /** A withdrawal takes its shares off the holder's record and leaves the deposit slot, and the
      tranche while shares are left; an emptied record is free for either tranche. No other
      record moves. */
  lemma WithdrawUpdatesRecord(w: World, user: User, lp: u64)
    requires Inv(w) && ExecWithdraw(w, user, lp).Some?
    ensures var r, w' := RecordOf(w, user), ExecWithdraw(w, user, lp).value;
            var r' := RecordOf(w', user);
            && 0 < lp <= r.lp && r'.lp == r.lp - lp && r'.lastDepositSlot == r.lastDepositSlot
            && (r'.initialized <==> r'.lp > 0) && r'.junior == (r.junior && r'.lp > 0)
            && forall other :: other != user ==> RecordOf(w', other) == RecordOf(w, other)
  {
    hide Accrue;
    hide ExecWithdraw;
    hide Payout;
    hide TakeOut;
    hide LpSum;
    var p, out := WithdrawFacts(w, user, lp);
  }

  /** A deposit adds the booked shares to the depositor's record and restarts its cooldown. No
      other record moves. */
  lemma DepositUpdatesRecord(w: World, i: Instruction)
    requires Inv(w) && Exec(w, i).Some? && (i.Deposit? || i.DepositJunior?)
    ensures var r, w' := RecordOf(w, i.user), Exec(w, i).value;
            var r' := RecordOf(w', i.user);
            && r'.initialized && r'.junior == i.DepositJunior? && r'.lastDepositSlot == w.slot
            && r'.lp - r.lp == w'.pool.lpSupply - w.pool.lpSupply > 0
            && forall other :: other != i.user ==> RecordOf(w', other) == RecordOf(w, other)
  {
    hide Accrue;
    hide ExecDeposit;
    hide ExecDepositJunior;
    hide Book;
    hide LpSum;
    var p, lp := AnyDepositFacts(w, i);
    AccrueFacts(w.pool, w.vault);
    BookFacts(w, p, i.user, i.amount, lp, i.DepositJunior?);
  }

  predicate DepositsFor(i: Instruction, user: User) {
    (i.Deposit? || i.DepositJunior?) && i.user == user
  }

  /** One step moves a user's deposit slot only as an accepted deposit of that user, to now. */
  lemma StepDepositSlot(w: World, s: Step, user: User)
    requires Inv(w)
    ensures RecordOf(Apply(w, s), user).lastDepositSlot
            == if Succeeds(w, s) && DepositsFor(s.i, user) then w.slot else RecordOf(w, user).lastDepositSlot
  {
    hide Inv;
    hide Accrue;
    hide ExecDeposit;
    hide ExecDepositJunior;
    hide ExecWithdraw;
    hide ExecConfig;
    if Succeeds(w, s) {
      match s.i
      case Deposit(_, _) => DepositUpdatesRecord(w, s.i);
      case DepositJunior(_, _) => DepositUpdatesRecord(w, s.i);
      case Withdraw(holder, lp) => WithdrawUpdatesRecord(w, holder, lp);
      case _ =>
    }
  }

  /** Step k of the run is the user's last accepted deposit, at slot `at`. */
  ghost predicate LastDeposit(w: World, steps: seq<Step>, user: User, k: nat, at: u64) {
    && k < |steps|
    && DepositsFor(steps[k].i, user)
    && Accepted(w, steps, k)
    && Run(w, steps[..k]).slot == at
    && (forall j :: k < j < |steps| && DepositsFor(steps[j].i, user) ==> !Accepted(w, steps, j))
  }

  lemma LastDepositExtends(w: World, before: seq<Step>, s: Step, user: User, k: nat, at: u64)
    requires LastDeposit(w, before, user, k, at)
    requires !(Succeeds(Run(w, before), s) && DepositsFor(s.i, user))
    ensures LastDeposit(w, before + [s], user, k, at)
  {
    hide Accepted;
    hide Run;
    hide Succeeds;
    var steps := before + [s];
    assert steps[..k] == before[..k];
    AcceptedInPrefix(w, before, s, k);
    forall j | k < j < |steps| && DepositsFor(steps[j].i, user)
      ensures !Accepted(w, steps, j)
    {
      AcceptedInPrefix(w, before, s, j);
    }
  }

  /** The slot a withdrawal counts its cooldown from is, after any run, exactly the slot of the
      user's last accepted deposit in it, or the one at its start if there was none. */
  lemma {:induction false} CooldownRunsFromLastDeposit(w: World, steps: seq<Step>, user: User) returns (k: nat)
    requires Inv(w)
    ensures var at := RecordOf(Run(w, steps), user).lastDepositSlot;
            || LastDeposit(w, steps, user, k, at)
            || (&& at == RecordOf(w, user).lastDepositSlot
                && forall j :: 0 <= j < |steps| && DepositsFor(steps[j].i, user) ==> !Accepted(w, steps, j))
    decreases |steps|
  {
    hide Inv;
    hide Apply;
    hide Succeeds;
    hide Accepted;
    if steps == [] {
      return 0;
    }
    var before, s := steps[..|steps| - 1], steps[|steps| - 1];
    assert steps == before + [s];
    var e := Run(w, before);
    k := CooldownRunsFromLastDeposit(w, before, user);
    RunKeepsInv(w, before);
    StepDepositSlot(e, s, user);
    AcceptedInPrefix(w, before, s, |before|);
    if Succeeds(e, s) && DepositsFor(s.i, user) {
      k := |before|;
    } else if LastDeposit(w, before, user, k, RecordOf(e, user).lastDepositSlot) {
      LastDepositExtends(w, before, s, user, k, RecordOf(e, user).lastDepositSlot);
    } else {
      forall j | 0 <= j < |steps| && DepositsFor(steps[j].i, user)
        ensures !Accepted(w, steps, j)
      {
        AcceptedInPrefix(w, before, s, j);
      }
    }
  }

  /** The user's position was last added to at slot `t` or later. */
  ghost predicate StakedSince(w: World, user: User, t: u64) {
    t <= RecordOf(w, user).lastDepositSlot && t <= w.slot
  }

  lemma DepositKeepsStakedSince(w: World, i: Instruction, user: User, t: u64)
    requires Inv(w) && Exec(w, i).Some? && (i.Deposit? || i.DepositJunior?)
    ensures StakedSince(w, user, t) ==> StakedSince(Exec(w, i).value, user, t)
    ensures i.user == user ==> StakedSince(Exec(w, i).value, user, w.slot)
  {
    hide Accrue;
    hide ExecDeposit;
    hide ExecDepositJunior;
    hide Book;
    var p, lp := AnyDepositFacts(w, i);
    BookFacts(w, p, i.user, i.amount, lp, i.DepositJunior?);
  }

  lemma StepKeepsStakedSince(w: World, s: Step, user: User, t: u64)
    requires Inv(w) && StakedSince(w, user, t)
    ensures StakedSince(Apply(w, s), user, t)
  {
    hide Accrue;
    hide ExecDeposit;
    hide ExecDepositJunior;
    hide ExecWithdraw;
    hide ExecConfig;
    hide Payout;
    hide TakeOut;
    if Succeeds(w, s) {
      match s.i
      case Deposit(_, _) => DepositKeepsStakedSince(w, s.i, user, t);
      case DepositJunior(_, _) => DepositKeepsStakedSince(w, s.i, user, t);
      case Withdraw(holder, lp) => var p, out := WithdrawFacts(w, holder, lp);
      case _ =>
    }
  }

  lemma {:induction false} RunKeepsStakedSince(w: World, steps: seq<Step>, user: User, t: u64)
    requires Inv(w) && StakedSince(w, user, t)
    ensures StakedSince(Run(w, steps), user, t)
    decreases |steps|
  {
    hide Apply;
    hide Inv;
    hide StakedSince;
    if steps != [] {
      var before := steps[..|steps| - 1];
      RunKeepsStakedSince(w, before, user, t);
      RunKeepsInv(w, before);
      StepKeepsStakedSince(Run(w, before), steps[|steps| - 1], user, t);
    }
  }

  /** After a deposit at slot `t` and anything whatever, the depositor withdraws nothing before
      the cooldown then in force has passed since `t`: not the new shares, not older ones. */
  lemma WithdrawWaitsForCooldown(w: World, i: Instruction, steps: seq<Step>, lp: u64)
    requires Inv(w) && Exec(w, i).Some? && (i.Deposit? || i.DepositJunior?)
    requires ExecWithdraw(Run(Exec(w, i).value, steps), i.user, lp).Some?
    ensures var e := Run(Exec(w, i).value, steps);
            Min(w.slot + e.pool.cooldown, U64_MAX) <= e.slot
  {
    hide Run;
    hide Accrue;
    hide ExecDeposit;
    hide ExecDepositJunior;
    hide Payout;
    hide HwmGate;
    hide TakeOut;
    var w' := Exec(w, i).value;
    DepositKeepsStakedSince(w, i, i.user, w.slot);
    StepKeepsInv(w, Step(i, true));
    RunKeepsStakedSince(w', steps, i.user, w.slot);
  }
}
