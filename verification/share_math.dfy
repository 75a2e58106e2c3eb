/** Pro-rata share arithmetic (src/math.rs).

    `Mint` and `Redeem` are the two ratios with the +1/+1 virtual offset, over
    unbounded naturals. The `Calc...` functions follow the source's branches and
    machine widths, and are shown to be those ratios exactly when they answer. */
module ShareMath {
  import opened Numbers

  const VIRTUAL_SHARES: u128 := 1
  const VIRTUAL_ASSETS: u128 := 1

  // ---------------------------------------------------------------- ratios

  function Mint(supply: nat, value: nat, amount: nat): nat {
    amount * (supply + 1) / (value + 1)
  }

  function Redeem(supply: nat, value: nat, lp: nat): nat {
    lp * (value + 1) / (supply + 1)
  }

  /** The share of the high-water mark that withdrawals must leave, in basis points. */
  function Floor(mark: nat, bps: nat): nat {
    mark * bps / 10_000
  }

  /** The price (value + 1) / (supply + 1) does not fall, cross-multiplied. The value may be
      negative: a tranche can owe more than it holds. */
  ghost predicate PriceNotLower(value: int, supply: nat, value': int, supply': nat) {
    (value + 1) * (supply' + 1) <= (value' + 1) * (supply + 1)
  }

  // --------------------------------------------------------- nonlinear facts

  lemma MulMono(x: int, y: int, k: nat)
    requires x <= y
    ensures x * k <= y * k
  {
  }

  lemma MulCancel(x: int, y: int, k: nat)
    requires 0 < k
    requires x * k <= y * k
    ensures x <= y
  {
    if y < x {
      MulMono(y + 1, x, k);
    }
  }

  lemma DivBounds(n: nat, d: nat)
    requires d > 0
    ensures n / d * d <= n < (n / d + 1) * d
  {
    assert n == n / d * d + n % d;
  }

  /** The quotient by name: keeps the division out of the facts that use it. */
  lemma Quotient(n: nat, d: nat) returns (q: nat)
    requires d > 0
    ensures q == n / d
    ensures q * d <= n < (q + 1) * d
  {
    q := n / d;
    DivBounds(n, d);
  }

  lemma QuotientIsLargest(n: nat, d: nat, t: nat)
    requires d > 0
    requires t * d <= n
    ensures t <= n / d
  {
    var q := Quotient(n, d);
    if q < t {
      MulMono(q + 1, t, d);
    }
  }

  lemma Distribute(x: int, y: int, k: int)
    ensures (x + y) * k == x * k + y * k
  {
  }

  lemma DivUnique(n: nat, d: nat, q: nat)
    requires d > 0
    requires q * d <= n < (q + 1) * d
    ensures n / d == q
  {
    var p := Quotient(n, d);
    if p < q {
      MulMono(p + 1, q, d);
    } else if p > q {
      MulMono(q + 1, p, d);
    }
  }

  lemma MulFitsU128(x: u64, y: int)
    requires 0 <= y <= TWO_64
    ensures 0 <= x * y < TWO_128
  {
    MulMono(x, U64_MAX, y);
    assert U64_MAX * y <= U64_MAX * TWO_64;
  }

  /** `have` units of one side of a pool (x of them in all) pay for `n` units of the other
      side (y in all), at the offset ratio. */
  ghost predicate Covers(have: nat, x: nat, n: nat, y: nat) {
    n * (y + 1) <= have * (x + 1)
  }

  lemma LargestCovered(have: nat, x: nat, y: nat) returns (q: nat)
    ensures q == have * (x + 1) / (y + 1)
    ensures q * (y + 1) <= have * (x + 1)
    ensures forall n: nat :: Covers(have, x, n, y) <==> n <= q
  {
    q := Quotient(have * (x + 1), y + 1);
    forall n: nat
      ensures Covers(have, x, n, y) <==> n <= q
    {
      if n <= q {
        MulMono(n, q, y + 1);
      } else {
        MulMono(q + 1, n, y + 1);
      }
    }
  }

  /** The minted shares are the largest number whose pro-rata cost the deposit covers. */
  lemma MintBounds(supply: nat, value: nat, amount: nat) returns (lp: nat)
    ensures lp == Mint(supply, value, amount)
    ensures lp * (value + 1) <= amount * (supply + 1)
    ensures forall n: nat :: Covers(amount, supply, n, value) <==> n <= lp
  {
    lp := LargestCovered(amount, supply, value);
  }

  /** The payout is the largest amount the burned shares' pro-rata value covers. */
  lemma RedeemBounds(supply: nat, value: nat, lp: nat) returns (out: nat)
    ensures out == Redeem(supply, value, lp)
    ensures out * (supply + 1) <= lp * (value + 1)
    ensures forall n: nat :: Covers(lp, value, n, supply) <==> n <= out
  {
    out := LargestCovered(lp, value, supply);
  }

  lemma RedeemAtMostValue(supply: nat, value: nat, lp: nat)
    requires lp <= supply
    ensures Redeem(supply, value, lp) <= value
  {
    var out := RedeemBounds(supply, value, lp);
    if out > value {
      MulMono(value + 1, out, supply + 1);
      MulMono(lp, supply, value + 1);
    }
  }

  /** A value reaches the floor exactly when one unit more would exceed the exact share. */
  lemma FloorReachedIff(mark: nat, bps: nat, value: int)
    ensures Floor(mark, bps) <= value <==> mark * bps < (value + 1) * 10_000
  {
    var q := Quotient(mark * bps, 10_000);
  }

  lemma FloorAtMostMark(mark: nat, bps: nat)
    ensures bps <= 10_000 ==> Floor(mark, bps) <= mark
  {
    if bps <= 10_000 {
      MulMono(bps, 10_000, mark);
    }
  }

  // ------------------------------------------------------- source functions

  lemma FirstMint(amount: nat)
    ensures Mint(0, 0, amount) == amount
  {
    assert amount * (0 + 1) == amount;
  }

  lemma MintIs(supply: nat, value: nat, amount: nat, lp: int)
    requires lp == amount * (supply + 1) / (value + 1)
    ensures lp == Mint(supply, value, amount)
  {
  }

  /** A deposit is priced only when supply and value are both zero or both positive:
      orphaned value and a fully flushed pool are refused. When it is priced, the first
      deposit and the pro-rata case are one formula. */
  function CalcLpForDeposit(supply: u64, value: u64, amount: u64): (r: Option<u64>)
    ensures r.Some? <==> (supply == 0 <==> value == 0) && Mint(supply, value, amount) <= U64_MAX
    ensures r.Some? ==> r.value == Mint(supply, value, amount)
  {
    hide Mint;
    if supply == 0 && value == 0 then FirstMint(amount); Some(amount)
    else if supply == 0 then None
    else if value == 0 then None
    else
      MulFitsU128(amount, supply + VIRTUAL_SHARES);
      var product: u128 := amount * (supply + VIRTUAL_SHARES);
      var lp := product / (value + VIRTUAL_ASSETS);
      MintIs(supply, value, amount, lp);
      if lp > U64_MAX then None else Some(lp)
  }

  /** A burn is priced whenever there is supply; a burn within the supply is always
      priced and never worth more than the pool. */
  function CalcCollateralForWithdraw(supply: u64, value: u64, lp: u64): (r: Option<u64>)
    ensures r.Some? <==> supply > 0 && Redeem(supply, value, lp) <= U64_MAX
    ensures r.Some? ==> r.value == Redeem(supply, value, lp)
    ensures 0 < supply && lp <= supply ==> r.Some? && r.value <= value
  {
    if supply == 0 then None
    else
      MulFitsU128(lp, value + VIRTUAL_ASSETS);
      var product: u128 := lp * (value + VIRTUAL_ASSETS);
      var collateral := product / (supply + VIRTUAL_SHARES);
      if lp <= supply then RedeemAtMostValue(supply, value, lp); Some(collateral)
      else if collateral > U64_MAX then None else Some(collateral)
  }

  /** Junior absorbs first: (junior loss, senior loss). */
  function DistributeLoss(junior: u64, senior: u64, loss: u64): (r: (u64, u64))
    ensures r.0 == Min(loss, junior)
    ensures r.1 > 0 ==> r.0 == junior
    ensures junior + senior <= U64_MAX ==> r.0 + r.1 == Min(loss, junior + senior)
  {
    var total := SaturatingAdd(junior, senior);
    var capped: u64 := Min(loss, total);
    if capped <= junior then (capped, 0)
    else (junior, SaturatingSub(capped, junior))
  }

  function HwmFloor(mark: u64, bps: u16): Option<u64> {
    if Floor(mark, bps) > U64_MAX then None else Some(Floor(mark, bps))
  }

  /** What is left must reach bps / 10000 of the mark, rounded down. */
  predicate HwmWithdrawalAllowed(postTvl: u64, mark: u64, bps: u16): (r: bool)
    ensures bps <= 10_000 ==> (r <==> mark * bps < (postTvl + 1) * 10_000)
  {
    FloorReachedIff(mark, bps, postTvl);
    FloorAtMostMark(mark, bps);
    hide Floor;
    match HwmFloor(mark, bps)
    case Some(floor) => postTvl >= floor
    case None => false
  }

  // ----------------------------------------------------------- price and round trip

  /** Burning the whole supply empties the pool exactly when no share is worth more than one
      unit; only above that does the virtual share keep something back. */
  lemma FullBurnEmptiesIff(supply: nat, value: nat)
    ensures Redeem(supply, value, supply) == value <==> value <= supply
  {
    hide Redeem;
    var out := RedeemBounds(supply, value, supply);
    RedeemAtMostValue(supply, value, supply);
    assert Covers(supply, value, value, supply) <==> value <= supply;
  }

  /** Minting at (supply, value) and redeeming the minted shares straight away never pays
      more than was put in, at any size and any price. */
  lemma RoundTripNoProfit(supply: nat, value: nat, amount: nat)
    ensures var lp := Mint(supply, value, amount);
            Redeem(supply + lp, value + amount, lp) <= amount
  {
    hide Mint;
    hide Redeem;
    var lp := MintBounds(supply, value, amount);
    var out := RedeemBounds(supply + lp, value + amount, lp);
    assert lp * (value + amount + 1) == lp * (value + 1) + lp * amount;
    assert amount * (supply + lp + 1) == amount * (supply + 1) + amount * lp;
    MulCancel(out, amount, supply + lp + 1);
  }

  /** Shares minted for an amount, against what they cost: the same fact as a price that
      does not fall. */
  lemma PriceOfMint(supply: nat, value: nat, amount: nat, lp: nat)
    ensures PriceNotLower(value, supply, value + amount, supply + lp) <==> Covers(amount, supply, lp, value)
  {
    Distribute(supply + 1, lp, value + 1);
    Distribute(value + 1, amount, supply + 1);
  }

  lemma PriceOfRedeem(supply: nat, value: nat, out: nat, lp: nat)
    requires lp <= supply && out <= value
    ensures PriceNotLower(value, supply, value - out, supply - lp) <==> Covers(lp, value, out, supply)
  {
    Distribute(supply + 1 - lp, lp, value + 1);
    Distribute(value + 1 - out, out, supply + 1);
  }

  lemma MintKeepsPrice(supply: nat, value: nat, amount: nat)
    ensures PriceNotLower(value, supply, value + amount, supply + Mint(supply, value, amount))
  {
    var lp := MintBounds(supply, value, amount);
    PriceOfMint(supply, value, amount, lp);
  }

  lemma RedeemKeepsPrice(supply: nat, value: nat, lp: nat)
    requires lp <= supply
    ensures Redeem(supply, value, lp) <= value
    ensures PriceNotLower(value, supply, value - Redeem(supply, value, lp), supply - lp)
  {
    RedeemAtMostValue(supply, value, lp);
    var out := RedeemBounds(supply, value, lp);
    PriceOfRedeem(supply, value, out, lp);
  }

  lemma Swap(a: int, b: nat, c: nat)
    ensures a * b * c == a * c * b
  {
  }

  lemma FractionTransitive(a: int, x: nat, b: int, y: nat, c: int, z: nat)
    requires 0 < y
    requires a * y <= b * x && b * z <= c * y
    ensures a * z <= c * x
  {
    MulMono(a * y, b * x, z);
    MulMono(b * z, c * y, x);
    Swap(a, y, z);
    Swap(b, x, z);
    Swap(c, y, x);
    MulCancel(a * z, c * x, y);
  }

  lemma PriceTransitive(v0: int, s0: nat, v1: int, s1: nat, v2: int, s2: nat)
    requires PriceNotLower(v0, s0, v1, s1)
    requires PriceNotLower(v1, s1, v2, s2)
    ensures PriceNotLower(v0, s0, v2, s2)
  {
    FractionTransitive(v0 + 1, s0 + 1, v1 + 1, s1 + 1, v2 + 1, s2 + 1);
  }

  /** More value at the same supply is not a lower price; and at equal supplies a price
      that did not fall means a value that did not fall. */
  lemma PriceAtSameSupply(v0: int, v1: int, s: nat)
    ensures PriceNotLower(v0, s, v1, s) <==> v0 <= v1
  {
    if v0 <= v1 {
      MulMono(v0 + 1, v1 + 1, s + 1);
    }
    if PriceNotLower(v0, s, v1, s) {
      MulCancel(v0 + 1, v1 + 1, s + 1);
    }
  }

  // ------------------------------------------------------- splitting never helps

  /** LP minted by depositing `parts` one after another into a pool at (supply, value);
      None when some part is refused. */
  function MintParts(supply: nat, value: nat, parts: seq<u64>): Option<nat>
    decreases |parts|
  {
    if parts == [] then Some(0)
    else if !FitsU64(supply) || !FitsU64(value) then None
    else
      var lp :- CalcLpForDeposit(supply, value, parts[0]);
      var rest :- MintParts(supply + lp, value + parts[0], parts[1..]);
      Some(lp + rest)
  }

  /** Collateral paid by burning `parts` one after another. */
  function RedeemParts(supply: nat, value: nat, parts: seq<u64>): Option<nat>
    decreases |parts|
  {
    if parts == [] then Some(0)
    else if !FitsU64(supply) || !FitsU64(value) || parts[0] > supply then None
    else
      var out :- CalcCollateralForWithdraw(supply, value, parts[0]);
      var rest :- RedeemParts(supply - parts[0], value - out, parts[1..]);
      Some(out + rest)
  }

  function Sum(parts: seq<u64>): nat {
    if parts == [] then 0 else parts[0] + Sum(parts[1..])
  }

  lemma {:induction false} MintPartsPrice(supply: nat, value: nat, parts: seq<u64>)
    requires MintParts(supply, value, parts).Some?
    ensures PriceNotLower(value, supply,
                          value + Sum(parts), supply + MintParts(supply, value, parts).value)
    decreases |parts|
  {
    if parts != [] {
      var lp := CalcLpForDeposit(supply, value, parts[0]).value;
      MintKeepsPrice(supply, value, parts[0]);
      MintPartsPrice(supply + lp, value + parts[0], parts[1..]);
      PriceTransitive(value, supply, value + parts[0], supply + lp, value + Sum(parts),
                      supply + MintParts(supply, value, parts).value);
    }
  }

  /** Depositing an amount in any number of pieces mints no more than one deposit of it. */
  lemma {:induction false} SplitDepositMintsNoMore(supply: nat, value: nat, parts: seq<u64>)
    requires MintParts(supply, value, parts).Some?
    ensures MintParts(supply, value, parts).value <= Mint(supply, value, Sum(parts))
  {
    var total, amount := MintParts(supply, value, parts).value, Sum(parts);
    MintPartsPrice(supply, value, parts);
    PriceOfMint(supply, value, amount, total);
    var whole := MintBounds(supply, value, amount);
  }

  lemma {:induction false} RedeemPartsPrice(supply: nat, value: nat, parts: seq<u64>)
    requires RedeemParts(supply, value, parts).Some?
    ensures Sum(parts) <= supply && RedeemParts(supply, value, parts).value <= value
    ensures PriceNotLower(value, supply,
                          value - RedeemParts(supply, value, parts).value, supply - Sum(parts))
    decreases |parts|
  {
    if parts != [] {
      var out := CalcCollateralForWithdraw(supply, value, parts[0]).value;
      RedeemKeepsPrice(supply, value, parts[0]);
      RedeemPartsPrice(supply - parts[0], value - out, parts[1..]);
      PriceTransitive(value, supply, value - out, supply - parts[0],
                      value - RedeemParts(supply, value, parts).value, supply - Sum(parts));
    }
  }

  /** Burning LP in any number of pieces pays no more than one burn of the whole. */
  lemma {:induction false} SplitBurnPaysNoMore(supply: nat, value: nat, parts: seq<u64>)
    requires RedeemParts(supply, value, parts).Some?
    ensures RedeemParts(supply, value, parts).value <= Redeem(supply, value, Sum(parts))
  {
    var total, lp := RedeemParts(supply, value, parts).value, Sum(parts);
    RedeemPartsPrice(supply, value, parts);
    PriceOfRedeem(supply, value, total, lp);
    var whole := RedeemBounds(supply, value, lp);
  }
}
