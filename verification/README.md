# The insurance-LP staking pool as a verified state machine

A stake pool takes collateral deposits, mints LP shares for them, lends its vault to a market's
insurance fund (flush), gets it back (return, recovery), earns fees, and splits gains and losses
between a junior (first-loss) and a senior tranche. This project models the pool's arithmetic, its
ledger and its instructions, and proves what every run keeps.

| file | what it holds |
|---|---|
| `numbers.dfy` | the source's integer widths, checked and saturating operations |
| `share_math.dfy` | pro-rata mint and redeem with the +1/+1 offset, loss split, high-water-mark floor |
| `mul_div.dfy` | the 256-bit multiply-then-divide loop and the weighted fee split |
| `packed_fields.dfy`, `pool_layout.dfy` | the 64-byte `_reserved` area, in place, against a plain record, and that record against the pool |
| `ledger.dfy` | the pool account and the quantities derived from its counters |
| `instructions.dfy` | the state machine on values: `Exec`, `Apply` (a rejected step changes nothing), `Run` |
| `stake_program.dfy` | the handlers as imperative code, each proved against its `Exec...` function |
| `effects.dfy`, `tranches.dfy` | what each accepted instruction moves, in flat terms and per tranche |
| `invariants.dfy`, `insurance.dfy` | what every run keeps: closed ledger, records, backing, dead shares, resolution |
| `solvency.dfy`, `over_return.dfy` | tranche solvency over runs, its exact condition, and a run without it |
| `acceptance.dfy` | exactly when each instruction that moves tokens is accepted |
| `accrual.dfy`, `stalled_exit.dfy` | when accrual, on which deposits and withdrawals depend, goes through; a run in which it does not |
| `share_price.dfy` | share prices over runs |
| `recovery.dfy`, `last_exit.dfy` | last-junior exit, the junior gate, deposits that wait for recoveries and fees |
| `hwm.dfy` | the high-water mark over an epoch |
| `settings.dfy`, `timelock.dfy` | tranche and floor settings over runs, the cooldown and its timelock over runs |

Vocabulary: *value* is `total_pool_value`; *effective junior* and *senior* are the two tranche
balances; *net loss* is flushed minus returned, floored at zero; a pool is *over-returned* when more
was returned than flushed, and the excess is its *surplus*; the *spill* is the part of the net loss
above the junior balance; *gross senior* is senior's claim with every loss undone; *solvent* means
effective junior does not exceed value, so that `senior_balance` is defined. `Run(w, steps)` ranges over every sequence of steps, each either
admitted or not; `admitted` stands for everything the books do not decide (signers, account checks,
outcome of token and wrapper calls). Vault transfers from outside (tallied, so that the
vault can be accounted for to the unit), LP burned by its holders and the clock are steps of their
own, so every interleaving with them is covered.

## Results that differ from the source's own comments

- Solvency is not kept by every run. `ReturnInsurance` is capped by flushed minus returned,
  `RecoverFlushedInsurance` by what the wrapper still owes, and both raise `total_returned`, so a run
  that uses both can be over-returned, which it is exactly after a recovery of more than the net loss
  (`Solvency.NeverOverReturnedIff`); senior can withdraw that surplus, and a later flush then
  takes what backs junior. `Solvency.StepSolventIff` and `Solvency.SolventIffFlushesCovered` give the exact
  condition, a comparison of the flushed amount with the pool's counters before the flush;
  `OverReturn.BothChannelsCanBreakSolvency` is a run of accepted instructions that ends without it, and
  `OverReturn.VaultCanReject` continues it to a junior burn the vault cannot pay. What holds in every
  state is `Solvency.WithdrawAcceptedIff`; in a solvent one the vault always suffices.
- src/processor.rs:2990-2992 says that a last junior leaving under a loss re-opens junior deposits.
  The gate at src/processor.rs:2999-3011 does not move: `Recovery.WithdrawKeepsGate` and
  `Recovery.LastExitLeavesGateShut` for all states, `LastExit.ExitDoesNotReopen` with numbers. After a
  forfeit it opens only once the pool is over-returned by the whole forfeited loss
  (`Recovery.JuniorDepositNeedsSurplus`).
- src/processor.rs:861 and src/processor.rs:2995 say that existing LPs withdraw at the marked-down
  price while a loss is outstanding. The guard at src/processor.rs:2565-2569 compares junior's gross
  balance, not its effective one, with the value, and a withdrawal accrues first: with anything to
  accrue and the gross balance above the vault, every deposit, withdrawal and accrual is rejected
  (`Accrual.StallRejects`), until the vault again holds the gross balance (`Accrual.StallLasts`).
  `Accrual.AccrueAcceptedIff` is the exact condition, `Accrual.LossFreeAccrualOpen` the case the comments
  describe, `StalledExit.OneTokenStopsWithdrawals` a run in a solvent, fully backed pool.
- src/state.rs:697 says that the vault balance equals the pool value. It exceeds it by exactly the
  outside transfers not yet accrued: `Invariants.PoolValueBacked`; by one in the run of
  `StalledExit.OneTokenStopsWithdrawals`.
- src/math.rs:95-98 says that burning the whole supply returns strictly less than the pool value.
  It returns all of it whenever value does not exceed supply: `ShareMath.FullBurnEmptiesIff`.
- src/processor.rs:104-106 places the timelock values in `_reserved`, and src/processor.rs:1619-1620
  says that a mode-0 pool has no fees. The code gives the timelock its own fields
  (src/state.rs:174-180) and accrues fees in mode 0 (src/processor.rs:2641). The model follows the code.

## Model

| member | source | states |
|---|---|---|
| ShareMath.CalcLpForDeposit | src/math.rs:49-80 | a deposit is priced exactly when supply and value are both zero or both positive and the result fits; first deposit and pro-rata case are one formula; no u128 overflow |
| ShareMath.CalcCollateralForWithdraw | src/math.rs:99-116 | a burn is priced exactly when there is supply and the result fits; a burn within the supply is always priced and never exceeds the value; no u128 overflow |
| ShareMath.DistributeLoss | src/math.rs:233-246 | junior bears min(loss, junior); senior bears something only when junior is wiped; the two add up to the loss capped at the total |
| ShareMath.HwmWithdrawalAllowed | src/math.rs:417-441 | allowed exactly when mark * bps < (value left + 1) * 10000, for every share up to the whole |
| ShareMath.MintBounds | src/math.rs:68-80 | a number of shares is covered by the deposit at the offset ratio if and only if it is at most the minted number |
| ShareMath.RedeemBounds | src/math.rs:107-116 | an amount is covered by the burned shares at the offset ratio if and only if it is at most the payout |
| ShareMath.RoundTripNoProfit | src/math.rs:46-116 | minting and redeeming at once never pays more than was put in, for all supplies, values and amounts |
| ShareMath.FullBurnEmptiesIff | src/math.rs:92-116 | burning the whole supply returns the whole value if and only if value does not exceed supply |
| ShareMath.SplitDepositMintsNoMore | src/math.rs:46-80 | depositing an amount in any sequence of parts mints no more than one deposit of it |
| ShareMath.SplitBurnPaysNoMore | src/math.rs:99-116 | burning LP in any sequence of parts pays no more than one burn of it |
| MulDiv.WideMul | src/math.rs:358-372 | the two halves built from 64-bit limbs are exactly the 256-bit product, and no intermediate overflows |
| MulDiv.LongDivide | src/math.rs:373-396 | the 256-step shift-subtract loop yields the low 128 bits of the quotient, also when the shifted remainder needs 129 bits |
| MulDiv.MulDivFloor | src/math.rs:351-396 | floor(a*b/d) for all u128 operands with d nonzero, its low 128 bits when it is wider |
| MulDiv.WeightedShare | src/math.rs:309-338 | fast path and overflow path both give floor(fee*jw/tw), with no overflow |
| MulDiv.DistributeFees | src/math.rs:261-344 | with tw = junior*mult + senior*10000 > 0, junior gets the n with n*tw <= fee*junior*mult < (n+1)*tw on the whole u64 range, and senior the rest; without weight nobody gets anything |
| MulDiv.JuniorFeeExact | src/math.rs:276-310 | junior's fee is the largest number whose total-weight multiple the fee times junior's weight covers |
| PackedFields.StoreRefinesAssign | src/state.rs:360-458 | any setter on any 64 bytes: its field reads back, every other field, the discriminator, the version and the unowned bytes are unchanged |
| PackedFields.PackedBytesRefineRecord | src/state.rs:632-677 | any sequence of setter calls on the bytes is the same sequence on a plain record |
| PackedFields.PoolArea.constructor | src/state.rs:588-596 | a new area carries the discriminator and the current version, and no proposal |
| PackedFields.PoolArea.Apply | src/state.rs:364-458 | the setters in place: one field of the record view changes, the timelock fields are outside the frame |
| PackedFields.PoolArea.RefreshHwm | src/state.rs:683-693 | the mark is reset in a new epoch, else raised to the value and never lowered; nothing else changes |
| PackedFields.PoolArea.SetCooldownProposal | src/state.rs:464-485 | the timelock values have their own fields; the packed bytes are outside the frame |
| PoolLayout.BytesHoldUpdatedPool | src/state.rs:360-458 | bytes that hold a pool hold, after any sequence of setters, the pool with the same updates |
| PoolLayout.SavedPoolReadsBack | src/state.rs:360-458 | the packed fields of any pool, saved over any area, read back, and identity, version, the admin-burned flag and unowned bytes are untouched |
| PoolLayout.RefreshHeldPool | src/state.rs:683-693 | the in-place refresh on the bytes is `Refresh` on the pool they hold |
| Ledger.TotalPoolValue | src/state.rs:705-736 | the signed sum of the six counters when it is a u64, else undefined |
| Ledger.EffectiveJuniorBalance | src/state.rs:498-523 | the saturating loss distribution is max(0, junior balance - net loss) in every state of the counters |
| Ledger.SeniorBalance | src/state.rs:526-529 | defined exactly when value is representable and covers effective junior, and then their difference |
| Ledger.Principal | src/state.rs:746-759 | the cap basis is the pool value without fees, clamped to [0, u64::MAX] |
| Ledger.WrapperRecoverable | src/state.rs:558-562 | the doubly saturated difference is the true difference floored at zero |
| Ledger.PhysicalNetLoss | src/processor.rs:2999-3002 | zero only when no net loss is outstanding, and exactly when returns net of forfeits cover the flushes |
| Ledger.SeniorMarkedDownIff | src/processor.rs:841-881 | in every state senior is its gross claim less the spill plus the surplus, so it is below the gross claim exactly when net loss exceeds the junior balance |
| Ledger.SolventIffGrossCovers | src/state.rs:498-529 | in every state senior is defined exactly when the value is not negative and the junior balance is within deposited - withdrawn + fees - realized loss + surplus |
| StakeProgram.Accounts.AccrueFeesInner | src/processor.rs:2518-2579 | the handler code is `Accrue`: snapshot, fee increment, weighted split, guard |
| StakeProgram.Accounts.PreAccrueFeeModes | src/processor.rs:2488-2507 | accrual against the vault balance in modes 0 and 1 |
| StakeProgram.Accounts.RefreshHwm | src/state.rs:683-693 | the in-place refresh is `Refresh` and returns the new mark |
| StakeProgram.Accounts.ApplyMinimumLiquidityLock | src/processor.rs:2437-2455 | the amount minted: everything, or at genesis all but MINIMUM_LIQUIDITY, refused when nothing is left |
| StakeProgram.Accounts.DepositWithinCap | src/processor.rs:776-786 | the cap is on principal without fees |
| StakeProgram.Accounts.PriceSeniorOrGlobal | src/processor.rs:906-914 | senior sub-pool pricing with tranches, global pricing without |
| StakeProgram.Accounts.CreditPool | src/processor.rs:974-992 | the pool account after a priced deposit, with the mark refreshed |
| StakeProgram.Accounts.EnrollRecord | src/processor.rs:1029-1059 | the record after a deposit is `Enrolled` |
| Acceptance.EnrolledIff | src/processor.rs:1029-1059 | a record is refused exactly when the other tranche uses it (or its counter is full); else shares are added, tranche set and slot restarted |
| StakeProgram.Accounts.BookDeposit | src/processor.rs:3027-3166 | tokens in, shares out, pool and record updated, or refused |
| StakeProgram.Accounts.ProcessDeposit | src/processor.rs:715-1067 | the handler accepts and computes exactly `ExecDeposit` |
| StakeProgram.Accounts.ProcessDepositJunior | src/processor.rs:2855-3174 | the handler accepts and computes exactly `ExecDepositJunior` |
| StakeProgram.Accounts.ValueBurn | src/processor.rs:1250-1271 | the payout is valued on the holder's own tranche |
| StakeProgram.Accounts.EnforceHwm | src/processor.rs:1284-1299 | the high-water-mark gate, after refreshing the mark |
| StakeProgram.Accounts.ForfeitAndCloseJunior | src/processor.rs:1381-1424 | the forfeited loss is added to returned and realized loss alike, then the junior balance is zeroed |
| StakeProgram.Accounts.DebitPool | src/processor.rs:1363-1447 | the pool account after a burn, for senior, partial junior and last junior |
| StakeProgram.Accounts.ProcessWithdraw | src/processor.rs:1073-1485 | the handler accepts and computes exactly `ExecWithdraw` |
| StakeProgram.Accounts.ProcessFlushToInsurance | src/processor.rs:1566-1673 | the handler accepts and computes exactly `ExecFlush` |
| StakeProgram.Accounts.ProcessReturnInsurance | src/processor.rs:3206-3328 | the handler accepts and computes exactly `ExecReturn` |
| StakeProgram.Accounts.ProcessRecoverFlushedInsurance | src/processor.rs:3389-3479 | the handler accepts and computes exactly `ExecRecover` |
| StakeProgram.Accounts.ProcessAccrueFees | src/processor.rs:2641-2686 | the handler accepts and computes exactly `ExecAccrueFees` |
| StakeProgram.Accounts.ProcessSetMarketResolved | src/processor.rs:3524-3560 | accepted if and only if not resolved before and nothing is recoverable from the wrapper; never accepted again |
| StakeProgram.Accounts.ProcessAdminSetHwmConfig | src/processor.rs:2737-2766 | enabling is accepted exactly for a floor in [1, 9000] and sets it; disabling is always accepted and keeps the floor; the mark and everything else is untouched |
| StakeProgram.Accounts.ProcessAdminSetTrancheConfig | src/processor.rs:2807-2845 | accepted exactly for a multiplier in [10000, 50000] that does not move while junior LP exists; tranches are on afterwards and never switched off; nothing else moves |
| StakeProgram.Accounts.ProcessUpdateConfig | src/processor.rs:1724-1739 | accepted exactly for a given cooldown in [1, current]; cooldown and cap become the given values and stay when not given; the cooldown never rises, a proposal is untouched |
| StakeProgram.Accounts.ProcessProposeCooldownIncrease | src/processor.rs:1894-1903 | accepted exactly for a value above the cooldown within the maximum; the cooldown itself does not change, and a commit is accepted if and only if TIMELOCK_SLOTS have passed since a nonzero slot |
| StakeProgram.Accounts.ProcessCommitCooldownIncrease | src/processor.rs:1953-1967 | accepted exactly TIMELOCK_SLOTS or more after an active proposal in range; the cooldown becomes the pending value; no second commit is accepted at any time |
| StakeProgram.Accounts.ProcessCancelCooldownIncrease | src/processor.rs:2013-2017 | accepted exactly when a proposal is active; the cooldown does not change and no commit is accepted at any time afterwards |
| StakeProgram.Accounts.Execute | src/processor.rs:366-470 | one transaction is `Apply`: the handler's effect on success, no change at all otherwise |
| Effects.AccrueFacts | src/processor.rs:2518-2579 | accrual moves only fees and junior balance, gives junior at most the fee, and leaves value equal to the vault when there was something to accrue and a holder |
| Accrual.AccrueAcceptedIff | src/processor.rs:2518-2570 | accrual is accepted exactly when, with something to accrue, the fee counter has room for all outside transfers and, with junior shares, senior is not negative and junior's gross balance with its part is within the vault; the new state on the counters |
| Acceptance.AccrueFeesAcceptedIff | src/processor.rs:2641-2686 | AccrueFees is accepted exactly when accrual is open; then the fees are all outside transfers and, with holders, the value is the vault |
| Accrual.CoveredAccrualOpen | src/processor.rs:2562-2569 | while the value covers junior's gross balance only the fee counter's width limits accrual |
| Accrual.LossFreeAccrualOpen | src/processor.rs:2562-2569 | a solvent pool with no loss outstanding always accrues |
| Accrual.StallRejects | src/processor.rs:2565-2569 | with something to accrue and junior's gross balance above the vault, every deposit, withdrawal and accrual is rejected |
| Accrual.StallLasts | src/processor.rs:2988-2996 | in any run that never brings the vault up to junior's gross balance the stall lasts, every record stays as it is and nothing is paid |
| StalledExit.OneTokenStopsWithdrawals | src/processor.rs:860-862 | a concrete run: in a solvent, fully backed pool under a loss a senior is paid; after one token more in the vault nobody is, until the vault holds junior's gross balance |
| Effects.WithdrawFacts | src/processor.rs:1242-1468 | an accepted withdrawal names the accrued pool it was priced on, its payout, and the whole new state |
| Effects.TakeOutFacts | src/processor.rs:1363-1447 | value falls by exactly the payout; a forfeit happens only at the last junior's exit, for exactly the loss borne, within the net loss |
| Effects.BookFacts | src/processor.rs:974-1059 | the whole new state after a booked deposit |
| Invariants.StepKeepsInv | src/processor.rs:366-470 | any step keeps: closed ledger, records that sum to the share counters, locked dead shares, settings in range, value not negative and in the vault, and vault - value = outside transfers - fees |
| Invariants.RunKeepsInv | src/processor.rs:366-470 | the same for every state of every run |
| Invariants.PoolValueBacked | src/state.rs:695-736 | in every reachable state, whatever was flushed or returned, the pool value is defined, the vault holds it, and the rest of the vault is exactly the outside transfers not yet booked as fees |
| Invariants.RecordsRefineRun | src/processor.rs:1029-1059 | in every reachable state records sum to the supply, junior ones to the junior supply, a record is initialized iff it holds LP, no share subtraction saturates, zero junior LP means zero junior balance |
| Invariants.GenesisLocksShares | src/processor.rs:2437-2455 | the first deposit by either entry point books its amount and mints MINIMUM_LIQUIDITY less |
| Invariants.DeadSharesForever | src/processor.rs:924-985 | from then on supply = circulating + burned by holders + MINIMUM_LIQUIDITY in every run, so no later deposit is a genesis deposit |
| Tranches.AccrueMoves | src/processor.rs:2530-2570 | accrual lowers neither tranche and the two gains add up to the gain in value |
| Tranches.AccrueSplitsByWeight | src/processor.rs:2549-2563 | junior's gross balance gains the n with n*tw <= gain*jw < (n+1)*tw, jw = balance*multiplier, tw = jw + senior*10000; the fee counter gains the whole |
| Tranches.DepositMoves | src/processor.rs:869-985 | a deposit adds exactly its amount to senior and nothing to junior, for the floor of the pro-rata shares; with tranches it is accepted only when senior is worth at least its gross claim |
| Tranches.DepositJuniorMoves | src/processor.rs:2999-3089 | a junior deposit implies no net loss, adds exactly its amount to junior and nothing to senior |
| Acceptance.DepositAcceptedIff | src/processor.rs:715-1067 | the exact acceptance condition of a deposit on the counters: amount, market, cap on value without fees, open accrual, tranche gate, shares and worth both or neither zero, shares to mint, room in three counters, record not in the other tranche |
| Acceptance.DepositJuniorAcceptedIff | src/processor.rs:2855-3174 | the same for a junior deposit, with the gate open exactly when recoveries and admin returns cover the flushes |
| Acceptance.FlushAcceptedIff | src/processor.rs:1496-1673 | accepted exactly up to the pool value in mode 0 before resolution (the vault always has it); counter, mark, vault and value each move by the amount, nothing else does |
| Acceptance.ReturnAcceptedIff | src/processor.rs:3206-3328 | any part of flushed minus returned is accepted; counter, admin tally, vault and value each move by the amount |
| Acceptance.RecoverAcceptedIff | src/processor.rs:3389-3479 | any part of what the wrapper still owes is accepted in mode 0; both counters, vault and value each move by the amount |
| Tranches.PayoutFacts | src/processor.rs:1250-1271 | the payout is the floor of the holder's share of its tranche, never more than the tranche |
| Tranches.WithdrawMoves | src/processor.rs:1363-1447 | a withdrawal takes exactly its payout from the holder's tranche and nothing from the other; the last junior's rounding remainder passes to senior |
| Tranches.DepositRespectsCap | src/processor.rs:772-786 | an accepted deposit by either entry point leaves the value without fees within a positive cap, whatever fees are accrued on the way |
| Tranches.LossWaterfall | src/state.rs:498-529 | from every state, to the unit: a flush takes the surplus, then junior, then senior; a return or recovery restores senior's spill, then junior, then adds to senior; a return leaves nothing over |
| Tranches.FlushThenReturnRestores | src/processor.rs:3259-3320 | flushing and returning an amount gives both tranches what they had |
| Solvency.FlushSolventIff | src/processor.rs:1623-1673 | a flush keeps senior defined if and only if `FlushCovered` held before it |
| Solvency.StepSolventIff | src/processor.rs:366-470 | any step from a solvent state ends solvent if and only if it is not an accepted uncovered flush |
| Solvency.SolventIffFlushesCovered | src/state.rs:526-529 | a run is solvent throughout if and only if each of its accepted flushes was covered |
| Solvency.TrancheSolvency | src/state.rs:498-529 | in every such run from a new pool senior is defined and effective junior + senior = value, with the junior balance within gross value plus surplus |
| Solvency.TrancheSolvencyNotOverReturned | src/state.rs:705-736 | the same for every run that is never over-returned, with the junior balance within the gross value |
| Solvency.StepOverReturnsIff | src/processor.rs:3405-3422 | a step turns a pool over-returned if and only if it is an accepted recovery of more than the net loss |
| Solvency.NeverOverReturnedIff | src/processor.rs:3259-3422 | a run is never over-returned if and only if each of its accepted recoveries was within the net loss when made |
| Solvency.OneChannelNeverOverReturns | src/processor.rs:3259-3267 | the case without looking at amounts: a run that never uses one of the two return channels is never over-returned |
| Solvency.WithdrawAcceptedIff | src/processor.rs:1211-1468 | the exact acceptance condition of a withdrawal on the counters, in every state of the invariant: record, cooldown, circulating shares, open accrual with its guard, a tranche worth not negative, a payout in the vault and within the headroom, the lifetime counter |
| Solvency.SolventVaultCovers | src/processor.rs:1250-1289 | in a solvent state every position of either tranche has a defined payout and the vault holds it |
| Solvency.CoveredRunPays | src/processor.rs:1250-1298 | in every state of a run from a new pool whose flushes were covered, no payout of either tranche exceeds the vault |
| OverReturn.BothChannelsCanBreakSolvency | src/processor.rs:3405-3422 | a concrete accepted run through both channels that ends with junior's claim above the value |
| OverReturn.VaultCanReject | src/processor.rs:1330-1361 | a concrete accepted run into an insolvent state where a junior burn that meets every other test is worth more than the vault and is rejected |
| Insurance.InsuranceFlows | src/processor.rs:3461-3479 | every step moves the four insurance counters by exactly its flows; a forfeit is within the outstanding loss |
| Insurance.WrapperLedgerCloses | src/state.rs:558-568 | in every reachable state returned = recovered + admin-returned + realized loss, the recoverable amount is exact, and the resolve gate is open exactly when it is used up |
| Insurance.RecoverableStep | src/processor.rs:3405-3422 | a recovery lowers the recoverable amount by exactly its amount, a flush raises it, a forfeit writes it down |
| Insurance.SurplusIsAdminExcess | src/state.rs:546-562 | the surplus is exactly what the admin returned beyond what the wrapper still owes, and the net loss exactly the reverse |
| Insurance.RecoveriesBounded | src/state.rs:531-562 | any run recovers at most what was recoverable at its start plus what it flushed |
| Insurance.StepKeepsSettled | src/processor.rs:3524-3560 | after resolution no step moves the deposited, flushed, returned, recovered or realized-loss counters |
| Insurance.ResolutionFreezes | src/processor.rs:3524-3560 | in every continuation of an accepted SetMarketResolved the five counters are frozen, net loss is zero, junior is never marked down, and only payouts and fees move the value |
| SharePrice.StepNotCheaper | src/processor.rs:906-985 | from every state of the invariant, no step but an accepted flush lowers a tranche's (worth+1)/(shares+1), the junior one until its last share is burned |
| SharePrice.PriceFallsIff | src/state.rs:498-529 | a tranche's price falls at a step if and only if the step is an accepted flush that reaches it: senior through a surplus or beyond junior, junior beyond the surplus |
| SharePrice.PriceFallsOnlyByFlush | src/processor.rs:1623-1673 | with no junior, the price falls at a step if and only if the step is an accepted flush |
| SharePrice.PriceNeverFalls | src/math.rs:46-116 | over any run without flushes from any state of the invariant neither tranche's price falls |
| SharePrice.SameSharesNoLess | src/math.rs:82-98 | such a run that ends at the same shares leaves the tranche worth at least as much |
| SharePrice.NoCoalitionProfit | src/processor.rs:1363-1371 | such a run back at the same supply without juniors: together the holders withdrew at most deposits plus fees plus what wrapper and admin paid back |
| Recovery.LastJuniorExit | src/processor.rs:1381-1424 | value falls by exactly the payout, the borne loss min(junior balance, net loss) is settled and written down, junior's books are empty |
| Recovery.FairRecovery | src/state.rs:425-445 | the wrapper's debt falls by the forfeited loss and no continuation recovers more than the rest and its own flushes; at its end senior is its gross claim before the exit + the rounding remainder + deposits - payouts + fees - later write-downs - junior balance - spill + admin returns beyond the wrapper's debt |
| Recovery.SeniorGetsNoForfeit | src/state.rs:425-445 | while not over-returned, senior is at most its gross claim before the exit + the remainder + principal that is not junior's - payouts + fees |
| Recovery.RecoveryMakesSeniorWhole | src/state.rs:553-562 | after the exit, through any returns, recoveries, accruals and time, senior is its gross claim + the remainder + admin returns - the wrapper's remaining debt: whole to the unit when the debt is paid and the admin added nothing |
| Recovery.JuniorGateOpenIff | src/processor.rs:2997-3011 | the gate's loss is exactly the flushes not covered by recoveries and admin returns; it is zero exactly when returned covers flushed plus realized loss, which needs a surplus and admin returns of at least the forfeited loss |
| Recovery.WithdrawKeepsGate | src/processor.rs:2990-3002 | no withdrawal, the last junior's included, changes the gate's loss |
| Recovery.JuniorDepositNeedsSurplus | src/processor.rs:2990-3011 | a junior deposit is accepted only with a surplus of at least the whole realized loss, so after a forfeit only in an over-returned pool |
| Recovery.LastExitLeavesGateShut | src/processor.rs:2990-3011 | the last exit leaves the gate where it was, shut if a loss was forfeited; in every continuation it is open only when the surplus, all of it admin returns, has reached the forfeit |
| LastExit.ExitDoesNotReopen | src/processor.rs:2990-3011 | a concrete run: the last junior leaves under a loss, the loss is settled, and every junior deposit is rejected |
| Recovery.AccrualIsIdempotent | src/processor.rs:2461-2579 | accrual leaves value equal to the vault when there are holders, and a second one does nothing |
| Recovery.ReturnsReachSeniorIff | src/processor.rs:841-856 | while junior bears the whole loss, returns move senior exactly by what they add beyond everything flushed |
| Recovery.DepositCapturesNothing | src/processor.rs:830-985 | deposit, any accruals, returns, recoveries and time, then redemption of the minted shares pays at most the deposit, when nothing beyond the flushed amount (without tranches: nothing) is returned meanwhile |
| Recovery.DepositJuniorCapturesNothing | src/processor.rs:2965-3089 | the same for a junior deposit, whatever is returned meanwhile |
| HighWaterMark.FlushKeepsHeadroom | src/processor.rs:1657-1673 | with the mark refreshed as the gate refreshes it, in any epoch, a flush does not raise what may be withdrawn before the floor, neither at the value nor at the vault balance a withdrawal accrues to |
| HighWaterMark.FlushLowersMark | src/processor.rs:1657-1673 | a flush lowers the mark by exactly its amount; a pool whose mark is not above its value stays one, with a tenth of what is left free to withdraw in any epoch |
| HighWaterMark.FlushOpensNoGate | src/processor.rs:1284-1299 | a payout that passes the gate after a flush, accrual done, passes it before the flush too |
| HighWaterMark.HwmGateIff | src/processor.rs:1284-1299 | a payout within the value passes the gate exactly when the mark is off or refreshed mark * bps < (value left + 1) * 10000; the gate moves only the mark |
| HighWaterMark.HeadroomIff | src/math.rs:417-441 | a payout is within the headroom exactly when refreshed mark * bps < (value left + 1) * 10000 |
| HighWaterMark.PayingWithdrawalLeavesFloor | src/processor.rs:1284-1299 | a paying withdrawal leaves a value with mark * bps < (value + 1) * 10000, and the mark is at least the value before it |
| HighWaterMark.DepositRaisesMark | src/processor.rs:987-992 | a deposit raises the mark to at least the new value |
| HighWaterMark.MarkOverEpoch | src/state.rs:679-693 | over any run within an epoch the mark falls by at most what was flushed |
| HighWaterMark.MarkWithinPeak | src/processor.rs:1657-1673 | over any run, through any epochs, the mark is at most the largest sum of vault and flushed less everything flushed by then |
| HighWaterMark.DrainLimitedOverEpoch | src/math.rs:417-441 | after any run within the epoch, a paying withdrawal leaves at least bps / 10000, rounded down, of any earlier mark less what was flushed since |
| Settings.OnlyConfigMovesSettings | src/processor.rs:366-470 | no step moves a setting but an accepted configuration instruction |
| Settings.TranchesStayOn | src/processor.rs:2807-2845 | tranches once on stay on in every run |
| Settings.MultiplierFixed | src/processor.rs:2829-2845 | over any run in which the junior cohort lasts, its fee multiplier does not change |
| Settings.FloorIsLastEnabled | src/processor.rs:2745-2766 | the floor in force after any run is the one given by the last accepted enabling, or the initial one if there was none; disabling never loses it |
| Settings.HwmFloorInRange | src/processor.rs:2737-2750 | in every reachable state with the mark enabled the floor is in [1, 9000] and leaves at least a tenth of the mark free |
| Timelock.ActiveProposalStands | src/processor.rs:1895-1903 | an active proposal was made by an accepted step of the run at the recorded slot and value, and not replaced, committed or cancelled since |
| Timelock.CooldownRisesOnlyAfterTimelock | src/processor.rs:1953-1967 | whenever the cooldown rises, that value has stood proposed and untouched for TIMELOCK_SLOTS |
| Timelock.CooldownInRange | src/processor.rs:154-164 | in every reachable state the cooldown is in [1, MAX_COOLDOWN_SLOTS] and an active proposal exceeds it |
| Timelock.WithdrawWaitsForCooldown | src/processor.rs:1228-1234 | after a deposit and any continuation, the depositor's next accepted withdrawal is at least the cooldown then in force after the deposit |
| Timelock.WithdrawUpdatesRecord | src/processor.rs:1449-1480 | a withdrawal takes its shares off the record, keeps the deposit slot, frees an emptied record for either tranche, and moves no other record |
| Timelock.DepositUpdatesRecord | src/processor.rs:1029-1059 | a deposit adds exactly the booked shares to the record, restarts its slot, and moves no other record |
| Timelock.CooldownRunsFromLastDeposit | src/processor.rs:1228-1234 | after any run the slot a cooldown counts from is exactly that of the user's last accepted deposit, or the initial one if there was none |

## Left out

- Account validation, PDA derivation, rent, signer, owner and writability checks: one `admitted` flag per step.
- Error codes: a handler accepts or rejects; which error it reports is not modelled.
- Token and wrapper calls (src/cpi.rs, src/spl_token.rs): each moves exactly its amount or fails; balances of user and wrapper accounts are not tracked.
- Authority binding, rotation and burning, AdminResolveMarket's wrapper call and the fee-policy proxies: what they guarantee rests on wrapper code that is not part of this model.
- Instruction decoding (src/instruction.rs), two-step admin rotation, and pool initialization beyond the state it leaves: none of them reads or moves the books.
- The fields `last_fee_accrual_slot` and `last_vault_snapshot`: written by AccrueFees and read by nothing.
- StakeProgram.Accounts.Execute: the pool account's data is one record cell that the handlers reassign field by field, so aliasing of account buffers is not captured.
- The tranche flag byte inside a deposit record's own reserved area: the record is modelled as a plain value.
- Liveness: a withdrawal or an accrual may be rejected, and gates may stay shut; only what accepted instructions do is claimed.
