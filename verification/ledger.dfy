/** The pool account as a value, and the quantities derived from its counters (src/state.rs).

    Each quantity has a closed form over the integers (`Value`, `Effective`, `Senior`, ...).
    The functions named after the source's accessors follow its branches and its
    saturating or range-checked arithmetic, and promise the closed form. */
module Ledger {
  import opened Numbers
  import opened ShareMath

  const MINIMUM_LIQUIDITY: u64 := 1_000

  datatype Pool = Pool(
    // lifetime counters
    deposited: u64,
    withdrawn: u64,
    flushed: u64,
    returned: u64,
    fees: u64,
    realizedLoss: u64,
    recovered: u64,
    // shares
    lpSupply: u64,
    juniorLp: u64,
    juniorBalance: u64,
    // configuration
    mode: u8,
    depositCap: u64,
    marketResolved: bool,
    trancheEnabled: bool,
    juniorMult: u16,
    // high-water mark
    hwmEnabled: bool,
    hwmFloorBps: u16,
    hwmMark: u64,
    hwmEpoch: u64,
    // cooldown timelock
    cooldown: u64,
    pendingCooldown: u64,
    proposedAt: u64)

  // ------------------------------------------------------------- closed forms

  /** What the pool is worth: the tokens its books say are in the vault. */
  function Value(p: Pool): int {
    p.deposited - p.withdrawn - p.flushed + p.returned + p.fees - p.realizedLoss
  }

  /** Flushed and not yet settled. */
  function NetLoss(p: Pool): nat {
    Monus(p.flushed, p.returned)
  }

  /** Junior's worth: its gross balance less the loss it absorbs first. */
  function Effective(p: Pool): nat {
    Monus(p.juniorBalance, NetLoss(p))
  }

  /** Senior's worth: the residual. Negative when junior's claim exceeds the pool. */
  function Senior(p: Pool): int {
    Value(p) - Effective(p)
  }

  function SeniorLp(p: Pool): nat {
    Monus(p.lpSupply, p.juniorLp)
  }

  /** Pool value with every outstanding loss undone. */
  function Gross(p: Pool): int {
    p.deposited - p.withdrawn + p.fees - p.realizedLoss
  }

  /** Senior's claim if every outstanding loss were undone. */
  function GrossSenior(p: Pool): int {
    Gross(p) - p.juniorBalance
  }

  /** The part of the outstanding loss that junior cannot absorb. */
  function Spill(p: Pool): nat {
    Monus(NetLoss(p), p.juniorBalance)
  }

  /** Returned beyond everything flushed. */
  function Surplus(p: Pool): nat {
    Monus(p.returned, p.flushed)
  }

  /** Flushed capital still owed by the wrapper, net of forfeited junior loss. */
  function Recoverable(p: Pool): int {
    p.flushed - p.realizedLoss - p.recovered
  }

  predicate OverReturned(p: Pool) {
    p.returned > p.flushed
  }

  /** The loss a leaving last junior forfeits. */
  function Forfeited(p: Pool): nat {
    p.juniorBalance - Effective(p)
  }

  /** Contributed principal still in the pool, clamped to the machine range: the pool value
      without its fees. */
  function Principal(p: Pool): (r: u64)
    ensures Value(p) - p.fees <= 0 ==> r == 0
    ensures 0 <= Value(p) - p.fees ==> r == Min(Value(p) - p.fees, U64_MAX)
  {
    var v := p.deposited - p.withdrawn - p.flushed + p.returned - p.realizedLoss;
    if v < 0 then 0 else Min(v, U64_MAX)
  }

  // ---------------------------------------------------------- source accessors

  function TotalPoolValue(p: Pool): (r: Option<u64>)
    ensures r.Some? <==> FitsU64(Value(p))
    ensures r.Some? ==> r.value == Value(p)
  {
    var value := p.deposited - p.withdrawn - p.flushed + p.returned + p.fees - p.realizedLoss;
    if value < 0 || value > U64_MAX then None else Some(value)
  }

  /** Loss distribution over the saturated gross balances collapses to
      max(0, junior balance - net loss), in every state of the counters. */
  function EffectiveJuniorBalance(p: Pool): (r: u64)
    ensures r == Effective(p)
  {
    var netLoss := SaturatingSub(p.flushed, p.returned);
    if netLoss == 0 then p.juniorBalance
    else
      var grossPool := SaturatingSub(p.deposited, p.withdrawn);
      var grossSenior := SaturatingSub(grossPool, p.juniorBalance);
      var (juniorLoss, _) := DistributeLoss(p.juniorBalance, grossSenior, netLoss);
      SaturatingSub(p.juniorBalance, juniorLoss)
  }

  function SeniorBalance(p: Pool): (r: Option<u64>)
    ensures r.Some? <==> FitsU64(Value(p)) && 0 <= Senior(p)
    ensures r.Some? ==> r.value == Senior(p)
  {
    var value :- TotalPoolValue(p);
    CheckedSub(value, EffectiveJuniorBalance(p))
  }

  function SeniorTotalLp(p: Pool): u64 {
    SaturatingSub(p.lpSupply, p.juniorLp)
  }

  /** The two saturating subtractions never saturate unless the difference is not positive. */
  function WrapperRecoverable(p: Pool): (r: u64)
    ensures r == if Recoverable(p) <= 0 then 0 else Recoverable(p)
  {
    SaturatingSub(SaturatingSub(p.flushed, p.realizedLoss), p.recovered)
  }

  /** Loss for the junior gate: forfeited settlements do not count as returned. */
  function PhysicalNetLoss(p: Pool): (r: u64)
    ensures r == 0 ==> NetLoss(p) == 0
    ensures p.realizedLoss <= p.returned ==> (r == 0 <==> p.flushed + p.realizedLoss <= p.returned)
  {
    SaturatingSub(p.flushed, SaturatingSub(p.returned, p.realizedLoss))
  }

  /** In every state of the counters: senior is its gross claim, less the loss junior could not
      absorb, plus what was returned beyond everything flushed. So it is marked down exactly
      when the outstanding loss exceeds the junior balance. */
  lemma SeniorMarkedDownIff(p: Pool)
    ensures Value(p) == Gross(p) - NetLoss(p) + Surplus(p)
    ensures Senior(p) == GrossSenior(p) - Spill(p) + Surplus(p)
    ensures Senior(p) < GrossSenior(p) <==> NetLoss(p) > p.juniorBalance
  {
  }

  /** The pool value covers junior's effective claim exactly when the loss-free value with the
      surplus covers junior's gross balance. */
  lemma SolventIffGrossCovers(p: Pool)
    ensures Effective(p) <= Value(p) <==> 0 <= Value(p) && p.juniorBalance <= Gross(p) + Surplus(p)
  {
    SeniorMarkedDownIff(p);
  }
}
