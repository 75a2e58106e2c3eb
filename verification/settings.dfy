/** The pool's settings over runs: only configuration instructions move them, tranches stay on,
    the fee multiplier is fixed while junior shares exist, and the high-water-mark floor is the
    one last enabled. */
module Settings {
  import opened Numbers
  import opened ShareMath
  import opened Ledger
  import opened Instructions
  import opened Effects
  import opened Invariants
  import opened HighWaterMark
  import opened SharePrice

  ghost predicate SameSettings(p: Pool, q: Pool) {
    && q.mode == p.mode && q.depositCap == p.depositCap && q.marketResolved == p.marketResolved
    && q.trancheEnabled == p.trancheEnabled && q.juniorMult == p.juniorMult
    && q.hwmEnabled == p.hwmEnabled && q.hwmFloorBps == p.hwmFloorBps
    && q.cooldown == p.cooldown && q.pendingCooldown == p.pendingCooldown && q.proposedAt == p.proposedAt
  }

  lemma DepositKeepsSettings(w: World, i: Instruction)
    requires Inv(w) && Exec(w, i).Some? && (i.Deposit? || i.DepositJunior?)
    ensures SameSettings(w.pool, Exec(w, i).value.pool)
  {
    hide Accrue;
    hide ExecDeposit;
    hide ExecDepositJunior;
    hide Book;
    var p, lp := AnyDepositFacts(w, i);
    AccrueFacts(w.pool, w.vault);
    BookFacts(w, p, i.user, i.amount, lp, i.DepositJunior?);
  }

  lemma WithdrawKeepsSettings(w: World, user: User, lp: u64)
    requires Inv(w) && ExecWithdraw(w, user, lp).Some?
    ensures SameSettings(w.pool, ExecWithdraw(w, user, lp).value.pool)
  {
    hide Accrue;
    hide ExecWithdraw;
    hide Payout;
    hide TakeOut;
    var p, out := WithdrawFacts(w, user, lp);
    AccrueFacts(w.pool, w.vault);
    TakeOutFacts(Marked(p, ExecWithdraw(w, user, lp).value.pool), RecordOf(w, user).junior, lp, out);
  }

  /** No step moves a setting but an accepted configuration instruction. */
  lemma OnlyConfigMovesSettings(w: World, s: Step)
    requires Inv(w)
    requires !(Succeeds(w, s) && IsConfig(s.i))
    ensures SameSettings(w.pool, Apply(w, s).pool)
  {
    hide Accrue;
    hide ExecDeposit;
    hide ExecDepositJunior;
    hide ExecWithdraw;
    if Succeeds(w, s) {
      match s.i
      case Deposit(_, _) => DepositKeepsSettings(w, s.i);
      case DepositJunior(_, _) => DepositKeepsSettings(w, s.i);
      case Withdraw(user, lp) => WithdrawKeepsSettings(w, user, lp);
      case AccrueFees => AccrueFacts(w.pool, w.vault);
      case _ =>
    }
  }

  /** Step k of the run was accepted. */
  ghost predicate Accepted(w: World, steps: seq<Step>, k: nat)
    requires k < |steps|
  {
    Succeeds(Run(w, steps[..k]), steps[k])
  }

  /** Acceptance of a step depends only on the steps before it. */
  lemma AcceptedInPrefix(w: World, before: seq<Step>, s: Step, k: nat)
    requires k <= |before|
    ensures k < |before| ==> (Accepted(w, before + [s], k) <==> Accepted(w, before, k))
    ensures k == |before| ==> (Accepted(w, before + [s], k) <==> Succeeds(Run(w, before), s))
  {
    hide Run;
    hide Succeeds;
    assert (before + [s])[..k] == before[..k];
    assert before[..|before|] == before;
  }

  // ------------------------------------------------------------------ tranches

  /** One step: tranches are not switched off, and the multiplier does not move under an
      existing junior share. */
  lemma StepKeepsTranches(w: World, s: Step)
    requires Inv(w)
    ensures w.pool.trancheEnabled ==> Apply(w, s).pool.trancheEnabled
    ensures w.pool.juniorLp > 0 ==> Apply(w, s).pool.juniorMult == w.pool.juniorMult
  {
    hide Inv;
    if Succeeds(w, s) && IsConfig(s.i) {
      hide ExecDeposit;
      hide ExecDepositJunior;
      hide ExecWithdraw;
    } else {
      hide Exec;
      OnlyConfigMovesSettings(w, s);
    }
  }

  /** Tranches once on stay on in every run. */
  lemma {:induction false} TranchesStayOn(w: World, steps: seq<Step>)
    requires Inv(w) && w.pool.trancheEnabled
    ensures Run(w, steps).pool.trancheEnabled
    decreases |steps|
  {
    hide Apply;
    hide Inv;
    if steps != [] {
      var before := steps[..|steps| - 1];
      TranchesStayOn(w, before);
      RunKeepsInv(w, before);
      StepKeepsTranches(Run(w, before), steps[|steps| - 1]);
    }
  }

  /** As long as a junior cohort lasts, its fee multiplier is the one it joined under. */
  lemma {:induction false} MultiplierFixed(w: World, steps: seq<Step>)
    requires Inv(w) && w.pool.juniorLp > 0 && JuniorStays(w, steps)
    ensures Run(w, steps).pool.juniorMult == w.pool.juniorMult
    ensures Run(w, steps).pool.juniorLp > 0
    decreases |steps|
  {
    hide Apply;
    hide Inv;
    if steps != [] {
      var before := steps[..|steps| - 1];
      MultiplierFixed(w, before);
      RunKeepsInv(w, before);
      StepKeepsTranches(Run(w, before), steps[|steps| - 1]);
    }
  }

  // -------------------------------------------------------------- floor setting

  predicate EnablesHwm(i: Instruction) {
    i.SetHwmConfig? && i.enabled
  }

  /** Step k of the run set the floor to `bps`, and no later one set it again. */
  ghost predicate LastSetFloor(w: World, steps: seq<Step>, k: nat, bps: u16) {
    && k < |steps|
    && steps[k].i == SetHwmConfig(true, bps)
    && Accepted(w, steps, k)
    && (forall j :: k < j < |steps| && EnablesHwm(steps[j].i) ==> !Accepted(w, steps, j))
  }

  lemma StepFloor(w: World, s: Step)
    requires Inv(w)
    ensures Apply(w, s).pool.hwmFloorBps
            == if Succeeds(w, s) && EnablesHwm(s.i) then s.i.floorBps else w.pool.hwmFloorBps
  {
    hide Inv;
    if Succeeds(w, s) && IsConfig(s.i) {
      hide ExecDeposit;
      hide ExecDepositJunior;
      hide ExecWithdraw;
    } else {
      hide Exec;
      OnlyConfigMovesSettings(w, s);
    }
  }

  lemma LastSetExtends(w: World, before: seq<Step>, s: Step, k: nat, bps: u16)
    requires LastSetFloor(w, before, k, bps)
    requires !(Succeeds(Run(w, before), s) && EnablesHwm(s.i))
    ensures LastSetFloor(w, before + [s], k, bps)
  {
    hide Accepted;
    hide Run;
    hide Succeeds;
    AcceptedInPrefix(w, before, s, k);
    forall j | k < j < |before + [s]| && EnablesHwm((before + [s])[j].i)
      ensures !Accepted(w, before + [s], j)
    {
      AcceptedInPrefix(w, before, s, j);
    }
  }

  /** The floor in force is the one given by the last accepted enabling: switching the mark off
      and on, any number of times in any run, cannot lose or change it on the way. */
  lemma {:induction false} FloorIsLastEnabled(w: World, steps: seq<Step>) returns (k: nat)
    requires Inv(w)
    ensures var bps := Run(w, steps).pool.hwmFloorBps;
            || LastSetFloor(w, steps, k, bps)
            || (&& bps == w.pool.hwmFloorBps
                && forall j :: 0 <= j < |steps| && EnablesHwm(steps[j].i) ==> !Accepted(w, steps, j))
    decreases |steps|
  {
    hide Inv;
    hide Apply;
    hide Succeeds;
    hide Accepted;
    if steps == [] {
      return 0;
    }
    var before, s := steps[..|steps| - 1], steps[|steps| - 1];
    assert steps == before + [s];
    k := FloorIsLastEnabled(w, before);
    RunKeepsInv(w, before);
    StepFloor(Run(w, before), s);
    AcceptedInPrefix(w, before, s, |before|);
    if Succeeds(Run(w, before), s) && EnablesHwm(s.i) {
      k := |before|;
    } else if LastSetFloor(w, before, k, Run(w, before).pool.hwmFloorBps) {
      LastSetExtends(w, before, s, k, Run(w, before).pool.hwmFloorBps);
    } else {
      forall j | 0 <= j < |steps| && EnablesHwm(steps[j].i)
        ensures !Accepted(w, steps, j)
      {
        AcceptedInPrefix(w, before, s, j);
      }
    }
  }

  /** An enabled mark always protects something and always leaves a tenth of the mark free, in
      every reachable state. */
  lemma HwmFloorInRange(init: World, steps: seq<Step>)
    requires Init(init) && Run(init, steps).pool.hwmEnabled
    ensures var p := Run(init, steps).pool;
            && 1 <= p.hwmFloorBps <= MAX_HWM_FLOOR_BPS
            && Floor(p.hwmMark, p.hwmFloorBps) * 10 <= p.hwmMark * 9
            && (p.hwmMark >= 10_000 ==> Floor(p.hwmMark, p.hwmFloorBps) > 0)
  {
    hide Run;
    hide Floor;
    InitInv(init);
    RunKeepsInv(init, steps);
    FloorWithin(Run(init, steps).pool.hwmMark, Run(init, steps).pool.hwmFloorBps);
  }
}
