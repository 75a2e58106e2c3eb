/** The instruction state machine (src/processor.rs) as functions on values.

    A `World` is the pool account, the per-user records, the token balances the pool lives
    on, and the clock. `Exec` gives the effect of one instruction or None when the program
    rejects it; `Apply` adds the runtime: a rejected instruction changes nothing. */
module Instructions {
  import opened Numbers
  import opened ShareMath
  import opened Ledger
  import MulDiv

  const MAX_COOLDOWN_SLOTS: u64 := 78_840_000
  const TIMELOCK_SLOTS: u64 := 432_000
  const MAX_HWM_FLOOR_BPS: u16 := 9_000

  type User = nat

  /** A StakeDeposit account. */
  datatype Record = Record(initialized: bool, lp: u64, junior: bool, lastDepositSlot: u64)

  const NO_RECORD := Record(false, 0, false, 0)

  datatype World = World(
    pool: Pool,
    records: map<User, Record>,
    vault: u64,           // collateral in the vault token account
    circulating: u64,     // supply of the LP token mint
    burned: nat,          // LP holders burned on their own, outside the program
    adminReturned: nat,   // sum of ReturnInsurance amounts
    sentIn: nat,          // sum of transfers straight to the vault
    slot: u64,
    epoch: u64)

  function RecordOf(w: World, user: User): Record {
    if user in w.records then w.records[user] else NO_RECORD
  }

  datatype Instruction =
    | Deposit(user: User, amount: u64)
    | DepositJunior(user: User, amount: u64)
    | Withdraw(user: User, lp: u64)
    | FlushToInsurance(amount: u64)
    | ReturnInsurance(amount: u64)
    | RecoverFlushedInsurance(amount: u64)
    | AccrueFees
    | SetMarketResolved
    | SetHwmConfig(enabled: bool, floorBps: u16)
    | SetTrancheConfig(mult: u16)
    | UpdateConfig(newCooldown: Option<u64>, newCap: Option<u64>)
    | ProposeCooldownIncrease(slots: u64)
    | CommitCooldownIncrease
    | CancelCooldownIncrease
    // the world outside the program
    | TransferToVault(amount: u64)   // fee revenue or a donation sent straight to the vault
    | BurnLp(amount: u64)            // a holder burns LP with the token program
    | AdvanceClock(slot: u64, epoch: u64)

  // ------------------------------------------------------------- fee accrual

  /** Fold what the vault holds beyond the pool value into the fees, and junior's weighted share
      of it into the junior balance. */
  function Accrue(p: Pool, balance: u64): Option<Pool> {
    var v := Value(p);
    if !FitsU64(v) then None
    else if balance <= v || p.lpSupply == 0 then Some(p)
    else if p.fees + (balance - v) > U64_MAX then None
    else
      var q := p.(fees := p.fees + (balance - v));
      if !p.trancheEnabled || p.juniorLp == 0 then Some(q)
      else if Senior(p) < 0 then None
      else
        var juniorFee := MulDiv.JuniorFee(p.juniorBalance, Senior(p), p.juniorMult, balance - v);
        if p.juniorBalance + juniorFee > balance then None
        else Some(q.(juniorBalance := p.juniorBalance + juniorFee))
  }

  function PreAccrue(p: Pool, balance: u64): Option<Pool> {
    if p.mode <= 1 then Accrue(p, balance) else Some(p)
  }

  // ---------------------------------------------------------------- deposits

  function Refresh(p: Pool, epoch: u64, tvl: u64): Pool {
    p.(hwmMark := if epoch != p.hwmEpoch || tvl > p.hwmMark then tvl else p.hwmMark, hwmEpoch := epoch)
  }

  predicate OverCap(p: Pool, amount: u64) {
    p.depositCap > 0 && Principal(p) + amount > p.depositCap
  }

  /** LP for a Deposit: priced on the senior sub-pool when tranches are on, else globally. */
  function PriceDeposit(p: Pool, amount: u64): Option<u64> {
    if !FitsU64(Value(p)) then None
    else if !p.trancheEnabled then CalcLpForDeposit(p.lpSupply, Value(p), amount)
    else if Senior(p) < 0 then None
    else CalcLpForDeposit(SeniorLp(p), Senior(p), amount)
  }

  /** What the mint actually issues: the genesis deposit leaves MINIMUM_LIQUIDITY unminted. */
  function Minted(supplyBefore: u64, lp: u64): Option<u64> {
    if supplyBefore != 0 then Some(lp)
    else if lp <= MINIMUM_LIQUIDITY then None
    else Some(lp - MINIMUM_LIQUIDITY)
  }

  /** The pool account after a priced deposit, its mark refreshed when enabled. */
  function Credit(p: Pool, epoch: u64, amount: u64, lp: u64, junior: bool): Option<Pool> {
    if !FitsU64(p.deposited + amount) || !FitsU64(p.lpSupply + lp) then None
    else if junior && (!FitsU64(p.juniorLp + lp) || !FitsU64(p.juniorBalance + amount)) then None
    else
      var q := p.(deposited := p.deposited + amount, lpSupply := p.lpSupply + lp);
      var q := if junior then q.(juniorLp := p.juniorLp + lp, juniorBalance := p.juniorBalance + amount) else q;
      if !p.hwmEnabled then Some(q)
      else if !FitsU64(Value(q)) then None
      else Some(Refresh(q, epoch, Value(q)))
  }

  /** The depositor's record afterwards; a record in use by the other tranche is refused. */
  function Enrolled(r: Record, slot: u64, lp: u64, junior: bool): Option<Record> {
    if (if junior then r.initialized && !r.junior else r.junior) then None
    else if !FitsU64(r.lp + lp) then None
    else Some(Record(true, r.lp + lp, junior, slot))
  }

  /** Book a priced deposit: tokens in, shares out, pool and record updated. */
  function Book(w: World, p: Pool, user: User, amount: u64, lp: u64, junior: bool): Option<World> {
    if lp == 0 then None
    else
      var minted :- Minted(p.lpSupply, lp);
      if !FitsU64(w.vault + amount) || !FitsU64(w.circulating + minted) then None
      else
        var q :- Credit(p, w.epoch, amount, lp, junior);
        var r :- Enrolled(RecordOf(w, user), w.slot, lp, junior);
        Some(w.(
          pool := q,
          records := w.records[user := r],
          vault := w.vault + amount,
          circulating := w.circulating + minted))
  }

  function ExecDeposit(w: World, user: User, amount: u64): Option<World> {
    if amount == 0 || w.pool.marketResolved || OverCap(w.pool, amount) then None
    else
      var p :- PreAccrue(w.pool, w.vault);
      if p.trancheEnabled && NetLoss(p) > p.juniorBalance then None
      else
        var lp :- PriceDeposit(p, amount);
        Book(w, p, user, amount, lp, false)
  }

  function ExecDepositJunior(w: World, user: User, amount: u64): Option<World> {
    if amount == 0 || !w.pool.trancheEnabled || w.pool.marketResolved || OverCap(w.pool, amount) then None
    else
      var p :- PreAccrue(w.pool, w.vault);
      if PhysicalNetLoss(p) > 0 then None
      else
        var lp :- CalcLpForDeposit(p.juniorLp, Effective(p), amount);
        Book(w, p, user, amount, lp, true)
  }

  // --------------------------------------------------------------- withdrawal

  /** Payout of a burn, valued on the holder's own tranche. */
  function Payout(p: Pool, junior: bool, lp: u64): Option<u64> {
    if p.trancheEnabled && junior then CalcCollateralForWithdraw(p.juniorLp, Effective(p), lp)
    else if !FitsU64(Value(p)) then None
    else if !p.trancheEnabled then CalcCollateralForWithdraw(p.lpSupply, Value(p), lp)
    else if Senior(p) < 0 then None
    else CalcCollateralForWithdraw(SeniorLp(p), Senior(p), lp)
  }

  /** A worthless junior position may be burned for nothing. */
  predicate WipedExit(p: Pool, junior: bool, out: u64) {
    p.trancheEnabled && junior && Effective(p) == 0 && out == 0
  }

  /** The high-water-mark gate: refresh, then require the value left to reach the floor. */
  function HwmGate(p: Pool, epoch: u64, out: u64, wiped: bool): Option<Pool> {
    if !p.hwmEnabled || wiped then Some(p)
    else if !FitsU64(Value(p)) || out > Value(p) then None
    else
      var q := Refresh(p, epoch, Value(p));
      if HwmWithdrawalAllowed(Value(p) - out, q.hwmMark, q.hwmFloorBps) then Some(q) else None
  }

  /** Take shares and payout off the books; the last junior to leave forfeits the loss it
      bore, which is settled and written down in one move. */
  function TakeOut(p: Pool, junior: bool, lp: u64, out: u64): Option<Pool> {
    if !FitsU64(p.withdrawn + out) || lp > p.lpSupply then None
    else
      var q := p.(withdrawn := p.withdrawn + out, lpSupply := p.lpSupply - lp);
      if !(p.trancheEnabled && junior) then Some(q)
      else if lp > p.juniorLp then None
      else if lp < p.juniorLp then
        if out > p.juniorBalance then None
        else Some(q.(juniorLp := p.juniorLp - lp, juniorBalance := p.juniorBalance - out))
      else
        var f := Forfeited(p);
        if !FitsU64(p.returned + f) || !FitsU64(p.realizedLoss + f) then None
        else Some(q.(juniorLp := 0, juniorBalance := 0,
                     returned := p.returned + f, realizedLoss := p.realizedLoss + f))
  }

  /** The record after a burn; a fully withdrawn one is reset for either tranche. */
  function Reduced(r: Record, lp: u64): Record
    requires lp <= r.lp
  {
    if lp == r.lp then r.(initialized := false, lp := 0, junior := false) else r.(lp := r.lp - lp)
  }

  function ExecWithdraw(w: World, user: User, lp: u64): Option<World> {
    var r := RecordOf(w, user);
    if lp == 0 || !r.initialized || w.slot < SaturatingAdd(r.lastDepositSlot, w.pool.cooldown) || lp > r.lp then None
    else
      var p :- PreAccrue(w.pool, w.vault);
      var out :- Payout(p, r.junior, lp);
      var wiped := WipedExit(p, r.junior, out);
      if out == 0 && !wiped then None
      else
        var q :- HwmGate(p, w.epoch, out, wiped);
        if lp > w.circulating || out > w.vault then None
        else
          var q' :- TakeOut(q, r.junior, lp, out);
          Some(w.(
            pool := q',
            records := w.records[user := Reduced(r, lp)],
            vault := w.vault - out,
            circulating := w.circulating - lp))
  }

  // ---------------------------------------------------------- insurance moves

  function ExecFlush(w: World, amount: u64): Option<World> {
    var p := w.pool;
    if amount == 0 || p.mode != 0 || p.marketResolved then None
    else if !FitsU64(Value(p)) || amount > Value(p) || amount > w.vault || !FitsU64(p.flushed + amount) then None
    else Some(w.(pool := p.(flushed := p.flushed + amount, hwmMark := Monus(p.hwmMark, amount)),
                 vault := w.vault - amount))
  }

  function ExecReturn(w: World, amount: u64): Option<World> {
    var p := w.pool;
    if amount == 0 || amount > NetLoss(p) then None
    else if !FitsU64(w.vault + amount) then None
    else Some(w.(pool := p.(returned := p.returned + amount),
                 vault := w.vault + amount, adminReturned := w.adminReturned + amount))
  }

  function ExecRecover(w: World, amount: u64): Option<World> {
    var p := w.pool;
    if p.mode != 0 || amount == 0 || amount > Recoverable(p) then None
    else if !FitsU64(w.vault + amount) || !FitsU64(p.returned + amount) || !FitsU64(p.recovered + amount) then None
    else Some(w.(pool := p.(returned := p.returned + amount, recovered := p.recovered + amount),
                 vault := w.vault + amount))
  }

  function ExecAccrueFees(w: World): Option<World> {
    if w.pool.mode > 1 then None
    else
      var p :- Accrue(w.pool, w.vault);
      Some(w.(pool := p))
  }

  // ------------------------------------------------------------- configuration

  predicate ValidCooldown(slots: u64) {
    0 < slots <= MAX_COOLDOWN_SLOTS
  }

  function ExecConfig(p: Pool, slot: u64, i: Instruction): Option<Pool>
    requires i.SetMarketResolved? || i.SetHwmConfig? || i.SetTrancheConfig? || i.UpdateConfig?
             || i.ProposeCooldownIncrease? || i.CommitCooldownIncrease? || i.CancelCooldownIncrease?
  {
    match i
    case SetMarketResolved =>
      if p.marketResolved || Recoverable(p) > 0 then None else Some(p.(marketResolved := true))
    case SetHwmConfig(enabled, bps) =>
      if !enabled then Some(p.(hwmEnabled := false))
      else if bps == 0 || bps > MAX_HWM_FLOOR_BPS then None
      else Some(p.(hwmEnabled := true, hwmFloorBps := bps))
    case SetTrancheConfig(mult) =>
      if !(10_000 <= mult <= 50_000) || (p.juniorLp > 0 && p.juniorMult != mult) then None
      else Some(p.(trancheEnabled := true, juniorMult := mult))
    case UpdateConfig(cooldown, cap) =>
      if cooldown.Some? && (!ValidCooldown(cooldown.value) || cooldown.value > p.cooldown) then None
      else Some(p.(cooldown := if cooldown.Some? then cooldown.value else p.cooldown,
                   depositCap := if cap.Some? then cap.value else p.depositCap))
    case ProposeCooldownIncrease(slots) =>
      if !ValidCooldown(slots) || slots <= p.cooldown then None
      else Some(p.(pendingCooldown := slots, proposedAt := slot))
    case CommitCooldownIncrease =>
      if p.proposedAt == 0 || !FitsU64(p.proposedAt + TIMELOCK_SLOTS) || slot < p.proposedAt + TIMELOCK_SLOTS
         || !ValidCooldown(p.pendingCooldown) then None
      else Some(p.(cooldown := p.pendingCooldown, pendingCooldown := 0, proposedAt := 0))
    case CancelCooldownIncrease =>
      if p.proposedAt == 0 then None else Some(p.(pendingCooldown := 0, proposedAt := 0))
  }

  // ------------------------------------------------------------ the machine

  function Exec(w: World, i: Instruction): Option<World> {
    match i
    case Deposit(user, amount) => ExecDeposit(w, user, amount)
    case DepositJunior(user, amount) => ExecDepositJunior(w, user, amount)
    case Withdraw(user, lp) => ExecWithdraw(w, user, lp)
    case FlushToInsurance(amount) => ExecFlush(w, amount)
    case ReturnInsurance(amount) => ExecReturn(w, amount)
    case RecoverFlushedInsurance(amount) => ExecRecover(w, amount)
    case AccrueFees => ExecAccrueFees(w)
    case TransferToVault(amount) =>
      if FitsU64(w.vault + amount)
      then Some(w.(vault := w.vault + amount, sentIn := w.sentIn + amount)) else None
    case BurnLp(amount) =>
      if amount <= w.circulating
      then Some(w.(circulating := w.circulating - amount, burned := w.burned + amount)) else None
    case AdvanceClock(slot, epoch) =>
      if w.slot <= slot && w.epoch <= epoch then Some(w.(slot := slot, epoch := epoch)) else None
    case _ =>
      var p :- ExecConfig(w.pool, w.slot, i);
      Some(w.(pool := p))
  }

  /** One transaction. `admitted` is everything the pool's books do not decide: signer and
      account checks, and whether the token and wrapper calls go through. */
  datatype Step = Step(i: Instruction, admitted: bool)

  predicate Succeeds(w: World, s: Step) {
    s.admitted && Exec(w, s.i).Some?
  }

  function Apply(w: World, s: Step): World {
    if Succeeds(w, s) then Exec(w, s.i).value else w
  }

  function Run(w: World, steps: seq<Step>): World
    decreases |steps|
  {
    if steps == [] then w
    else Apply(Run(w, steps[..|steps| - 1]), steps[|steps| - 1])
  }

  /** A pool as InitPool or InitTradingPool leaves it. */
  ghost predicate Init(w: World) {
    && w.pool.deposited == w.pool.withdrawn == w.pool.flushed == w.pool.returned == 0
    && w.pool.fees == w.pool.realizedLoss == w.pool.recovered == 0
    && w.pool.lpSupply == w.pool.juniorLp == w.pool.juniorBalance == 0
    && w.pool.mode <= 1 && !w.pool.marketResolved && !w.pool.trancheEnabled && w.pool.juniorMult == 0
    && !w.pool.hwmEnabled && w.pool.hwmFloorBps == 0 && w.pool.hwmMark == w.pool.hwmEpoch == 0
    && ValidCooldown(w.pool.cooldown) && w.pool.pendingCooldown == w.pool.proposedAt == 0
    && w.records == map[] && w.circulating == 0 && w.burned == 0 && w.adminReturned == 0
    && w.vault == w.sentIn
  }
}
