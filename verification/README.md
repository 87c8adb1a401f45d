# Neutron, verified

A Dafny model of the parts of the Neutron blockchain where a mistake is hardest to see: its
27-digit decimal arithmetic, the protections that guard the chain around a halt, the one-time
recovery of contracts and funds, and a few smaller algorithms that keep state. Everything below is
proved for all inputs, all message trees, all stores or all runs, as the case may be.

Check the whole project with `dafny verify dfyconfig.toml`.

## What is modelled

**Decimals** (`BigArith`, `Rounding`, `Quotient`, `FixedPoint`, `Power`, `PowerBound`, `Newton`, `Sqrt`,
`Residual`, `DecimalText`, `Sortable`, `PrecDecimals`). A decimal is a pointer to an integer scaled by
`P = 10^27` and limited to 345 bits. `PrecDecimals` has the methods of the source in their own form:
the `Mut` methods change the integer behind the pointer, operands may alias, and a panic is the
outcome `Panicked`. Each method is proved equal to a function on integers, and the other modules
prove what those functions mean: the square root is within one unit of the last place and the
Newton loop always ends by its delta test, `Power` has an error below (n-1)/2 units on [-1, 1], a bound
that grows with the base elsewhere, and is exact on whole numbers, products are correctly rounded, quotients are correctly rounded except on an
exactly described set of inputs, printing and parsing are inverse, and the sortable encoding orders
as stated.

**Halt protections** (`Messages`, `HaltFilters`, `HaltProtocol`, `LockedSigners`, `Passage`). Messages are trees of any depth.
Each ante filter is proved to accept exactly the trees without a reachable offender. The chain is a
state machine whose steps deliver transactions, dispatch messages of contracts, execute proposals
and change blocks; its safety, the single recovery and the equality with the unfiltered chain before
the halt hold over every run, and above the halt messages that concern no protection are executed as
without any. The state holds the contract store and the ledger, so that a run past
the recovery block is known to have restored the contracts and kept every total.

**Recovery** (`ByteOrder`, `WasmStore`, `Restore`, `SecondRestore`, `Recovery`, `Clawback`,
`StolenFunds`, `RecoveryBlock`). Contract info, code history and secondary index live in one store with the byte keys of the wasm module; the recovery
reads the last history position with a reverse scan over those bytes. The clawback rewrites a bank
ledger entry by entry, for any list of transfers and for the listed ones. `RecoveryBlock` puts the steps together as one block does.

**Smaller algorithms** (`Pagination`, `SanitizedCoins`, `SudoWrapper`, `MarketMaps`): filtered
pagination of balances, normalising coins, the gas-limited contract call, and merging market maps.

## What the proofs found

- `QuoMut` rounds twice. It is the correctly rounded quotient if and only if the inputs do not look
  like a tie after truncation (`QuoIsNearestEvenIff`); 10^-27 / (2 - 10^-27) is such an input.
- `QuoRoundupMut` is the ceiling if and only if no fraction is lost (`QuoRoundUpIsCeilingIff`); a
  positive quotient can round up to 0.
- The in-place quotients are right if and only if their operands do not alias
  (`InPlaceQuotientIff`): `d.QuoMut(d)` divides by the already scaled `d` and gives 0, not 1. The
  immutable forms copy first and are not affected.
- The parser accepts a leading `+` and reads `--5` as 5 (`ParseAcceptsIff`, `DoubleMinusIsPlus`);
  the comment above it describes fewer forms.
- Negative decimals sort by descending value among themselves (`EncodingOrder`).
- An offset page is wrong exactly when `offset + limit + 1` wraps around and matters
  (`OffsetPageCorrectIff`), and a walk with the greatest limit can list every balance twice
  (`WalkYieldsAllHitsIff`).
- `SanitizeCoins` panics on a nameless coin and on sums beyond 256 bits, and on nothing else
  (`SanitizePanicsIff`).
- A second recovery changes nothing if and only if no contract is listed with two admins and, in
  another block, no history is out of positions (`RestoreAllIdempotentIff`).
- Two different price providers can share a merge key, and one of them is then dropped
  (`KeysCollide`, `NoProviderLostIff`).
- The account lock looks at the messages of transactions. Above the halt a message of a locked signer
  is executed if and only if a contract dispatches, or a proposal runs, something the lock would have
  refused (`RunLockedIff`); an execution signed by a contract is such a case
  (`ContractExecutionCarriesLocked`). The comment above the contract recovery assumes there is none.
- An out-of-gas panic of another meter is taken for the contract's own when the contract has used
  exactly its limit (`AbsorbedIff`).
- Comments and code disagree in three places, and the model follows the code: the root loop runs at
  most 300 rounds (the comment says 100), the fraction is padded to 27 digits (the comment says 18),
  and `chopPrecisionAndTruncate` does change its argument.

## Model

| member | source | states |
|---|---|---|
| Sqrt.SqrtLoopConverges | utils/math/prec_dec.go:437-490 | for every in-range positive decimal but 1 the square-root loop ends by the delta test within 207 of its 300 rounds, without overflow, at the integer square root of d·10^27 or one above it |
| Sqrt.SqrtWithinOneUnit | utils/math/prec_dec.go:437-490 | for every in-range decimal of either sign the square root reports no failure and its square brackets the exact radicand within one unit of the last place |
| Residual.RootResidual | utils/math/prec_dec.go:463-489 | for every root above 2, a loop that ends by the delta test is at most one unit from a guess that d, divided by its power of root - 1, meets within twice the root |
| Newton.StepNotBelow | utils/math/prec_dec.go:466-487 | a Newton round never falls below the integer root, whatever guess it starts from |
| Newton.ExcessHalves | utils/math/prec_dec.go:466-487 | each round at least halves the excess of the guess over the root, up to two units |
| Newton.ExcessCollapses | utils/math/prec_dec.go:466-487 | once the excess is below a quarter of the root each round divides it by eight, up to a constant |
| PrecDecimals.PrecDec.NewtonRound | utils/math/prec_dec.go:466-487 | one round on shared integers, where the divisor is the guess itself for square roots, leaves the value-level step in guess and delta, and panics exactly when it does |
| PrecDecimals.PrecDec.NewtonTurn | utils/math/prec_dec.go:464-487 | after a round and the next test's AbsMut the rest of the loop still ends in the same result |
| PrecDecimals.PrecDec.NewtonIterate | utils/math/prec_dec.go:463-489 | the loop with its iteration cap ends in the guess and the failure flag of the recursive loop, from any starting guess |
| PrecDecimals.PrecDec.NewtonFromOne | utils/math/prec_dec.go:459-489 | started from 1 the loop leaves the value-level result in a new integer |
| PrecDecimals.PrecDec.ApproxRoot | utils/math/prec_dec.go:437-490 | every root of every decimal is the value-level root, the receiver keeps its value, and the result is a new integer except where the code returns the receiver |
| Power.PowerError | utils/math/prec_dec.go:493-514 | on [-1, 1] the rounded square-and-multiply loop never panics and its result is within (n-1)/2 units of the 27th place of the exact power |
| Power.PowerOfWhole | utils/math/prec_dec.go:498-514 | on whole numbers the power is exact, and it panics exactly when the exact power is out of range |
| Power.PowerMonotone | utils/math/prec_dec.go:498-514 | a larger non-negative base gives no smaller power, and if its power fits so does the other |
| PowerBound.PowerErrorAnySize | utils/math/prec_dec.go:498-514 | every power that returns, of a base of any size and sign, is within (n-1)/2 · (abs(x) + 1)^(n-1) units of the 27th place of the exact power |
| PrecDecimals.PrecDec.PowerMut | utils/math/prec_dec.go:498-514 | the in-place loop, which squares the receiver through its own alias, returns its receiver holding the value-level power, panics exactly when that overflows, and what is then in the receiver |
| PrecDecimals.PrecDec.Power | utils/math/prec_dec.go:493-496 | the immutable power gives the same in a new integer and leaves the receiver |
| Quotient.QuoTruncateExact | utils/math/prec_dec.go:381-391 | truncating twice equals truncating the exact quotient once, for all signs |
| Quotient.QuoError | utils/math/prec_dec.go:363-373 | the quotient is closer than 1/2 + 10^-27 of a unit to the exact one |
| Quotient.QuoIsNearestEvenIff | utils/math/prec_dec.go:363-373 | the quotient is the nearest, ties to even, if and only if the exact quotient does not lie within 10^-27 of a unit above a midpoint over an even whole part |
| Quotient.RoundsDownAboveHalf | utils/math/prec_dec.go:363-373 | a concrete quotient just above half a unit that is rounded to 0 |
| Quotient.QuoRoundUpIsCeilingIff | utils/math/prec_dec.go:399-409 | rounding up gives the ceiling of the exact quotient if and only if a positive quotient does not exceed a whole unit by less than 10^-27 of one |
| Quotient.NoFractionLost | utils/math/prec_dec.go:399-409 | non-positive quotients and divisors of magnitude at most 1 are always rounded to the ceiling |
| Quotient.QuoRoundUpBounds | utils/math/prec_dec.go:399-409 | in every case the result lies strictly between x - 10^-27 and x + 1 units |
| Quotient.RoundUpToZero | utils/math/prec_dec.go:649-669 | a positive quotient that is rounded up to 0 |
| PrecDecimals.PrecDec.QuoMut | utils/math/prec_dec.go:363-373 | the half-even quotient is left in the receiver, by the scaled receiver itself when the operands alias; zero divisors and overflow panic, and what is then in the receiver |
| PrecDecimals.PrecDec.QuoTruncateMut | utils/math/prec_dec.go:381-391 | the same for truncation |
| PrecDecimals.PrecDec.QuoRoundupMut | utils/math/prec_dec.go:399-409 | the same for rounding up |
| PrecDecimals.PrecDec.Quo | utils/math/prec_dec.go:356-358 | the immutable quotient leaves both operands and is right even when they alias |
| PrecDecimals.PrecDec.QuoTruncate | utils/math/prec_dec.go:376-378 | the same for truncation |
| PrecDecimals.PrecDec.QuoRoundUp | utils/math/prec_dec.go:394-396 | the same for rounding up |
| PrecDecimals.InPlaceQuotientIff | utils/math/prec_dec.go:363-409 | each in-place quotient is the quotient of its operands if and only if they do not alias; an aliased one is 0, 0 or the smallest decimal instead of 1 |
| Rounding.HalfEvenIsNearestEven | utils/math/prec_dec.go:617-647 | the chop gives the nearest integer to x / 10^27, the even one in a tie, for both signs |
| Rounding.NearestEvenUnique | utils/math/prec_dec.go:617-647 | there is only one such integer |
| Rounding.HalfEvenMonotone | utils/math/prec_dec.go:617-647 | the chop is monotone |
| Rounding.HalfEvenOdd | utils/math/prec_dec.go:617-624 | the chop commutes with negation |
| Rounding.RoundUpIsCeiling | utils/math/prec_dec.go:649-669 | the round-up chop is the ceiling of x / 10^27 for both signs |
| PrecDecimals.ChopPrecisionAndRound | utils/math/prec_dec.go:617-647 | the in-place chop returns its own argument, which then holds the half-even quotient |
| PrecDecimals.ChopPrecisionAndRoundUp | utils/math/prec_dec.go:649-669 | the in-place chop returns its own argument, which then holds the rounded-up quotient |
| PrecDecimals.ChopPrecisionAndTruncate | utils/math/prec_dec.go:692-694 | the argument itself is truncated |
| FixedPoint.InRangeIff | utils/math/prec_dec.go:24-39 | the test on the bit length accepts exactly the integers of magnitude below 2^345 |
| FixedPoint.MulIsNearestEven | utils/math/prec_dec.go:301-310 | a product that returns is the exact product rounded to nearest, ties to even, and it panics only if that is out of range |
| FixedPoint.MulMonotone | utils/math/prec_dec.go:301-310 | products of larger non-negative factors are not smaller, and if the larger fits so does the smaller |
| FixedPoint.MulWhole | utils/math/prec_dec.go:301-310 | products of whole numbers are exact or panic |
| PrecDecimals.PrecDec.MulMut | utils/math/prec_dec.go:301-310 | the rounded product is in the receiver, also when the operands alias and when the call panics |
| PrecDecimals.PrecDec.Mul | utils/math/prec_dec.go:296-298 | the immutable product leaves both operands, also when they alias |
| PrecDecimals.PrecDec.AddMut | utils/math/prec_dec.go:271-278 | the exact sum is in the receiver, and the call panics exactly when it is out of range |
| PrecDecimals.PrecDec.SubMut | utils/math/prec_dec.go:286-293 | the exact difference is in the receiver, and the call panics exactly when it is out of range |
| PrecDecimals.PrecDec.Ceil | utils/math/prec_dec.go:723-739 | a new whole decimal, not below the receiver and less than 1 above it |
| DecimalText.ParseUndoesFormat | utils/math/prec_dec.go:160-207 | parsing the printed text gives back every in-range decimal of either sign |
| DecimalText.ParseFormatParse | utils/math/prec_dec.go:160-207 | whatever is accepted is in range and survives printing and parsing again |
| DecimalText.ParseAcceptsIff | utils/math/prec_dec.go:160-207 | the exact accepted language and its meaning: an optional minus, an optional sign, digits, and at most 27 decimals, with a value in range |
| DecimalText.ParseSigned | utils/math/prec_dec.go:160-207 | which error or value every text of digits with signs and a point gives |
| DecimalText.DoubleMinusIsPlus | utils/math/prec_dec.go:160-207 | a second minus sign is read as a plus |
| DecimalText.FormatParts | utils/math/prec_dec.go:535-585 | the printed magnitude is the digits of its quotient by 10^27 without leading zeros, a point, and exactly 27 decimals that read as the remainder, in the short and the long layout |
| DecimalText.DigitsUnique | utils/math/prec_dec.go:541-546 | the only text of digits that reads as a number and has no leading zero is the one printed |
| DecimalText.FormatInjective | utils/math/prec_dec.go:535-585 | different in-range decimals print differently |
| PrecDecimals.FillBuffer | utils/math/prec_dec.go:546-578 | the byte buffer filled in place holds the digits with the point and leading zeros in place |
| PrecDecimals.PrecDec.String | utils/math/prec_dec.go:535-585 | the printed text of either sign is the specified one |
| Sortable.EncodingOrder | utils/math/prec_dec.go:752-777 | for a < b the encoding of a sorts first exactly when b is not negative or a is the least decimal; otherwise it sorts last |
| Sortable.EncodingInjective | utils/math/prec_dec.go:752-777 | different valid decimals have different encodings |
| Sortable.EncodingParses | utils/math/prec_dec.go:752-777 | below the bound the encoding parses back to the decimal and has 55 characters, 56 with a minus sign |
| Sortable.EncodesIffTextFits | utils/math/prec_dec.go:749-777 | the encoder returns exactly for the decimals whose magnitude prints within the padded width of 55 characters, and for the two bounds |
| Sortable.MaxSortableIsReciprocal | utils/math/prec_dec.go:743-747 | the bound of the valid range is 1 divided by the smallest decimal |
| Messages.CleanIffReachable | app/govfilter/proposals.go:96-120 | a recursive walk finds nothing exactly when every nested list unpacks and no message on any path offends |
| HaltFilters.ValidateProposalMessages | app/govfilter/proposals.go:75-92 | the loop with two flags accepts exactly the proposals of only upgrades and stored code or of only legacy text, and stops at the first message that breaks both |
| HaltFilters.TxFilterAcceptsIff | app/govfilter/proposals.go:96-120 | the proposal filter accepts exactly when no refused submission is reachable through executions of any depth |
| HaltFilters.FreezeAcceptsIff | app/staking_freeze.go:41-66 | the freeze accepts exactly when nothing frozen is reachable through executions and proposals |
| HaltFilters.LockAcceptsIff | app/account_lock.go:93-115 | the lock accepts exactly when no locked or unresolvable signer is reachable through executions |
| HaltFilters.FreezeInsideProposalsNeverFires | app/ante_handler.go:78-80 | behind the proposal filter the freeze never fires inside a proposal |
| HaltFilters.ProposalPassesRouter | app/govfilter/proposals.go:66-92 | every message of an allowed proposal is allowed by the router guard |
| HaltProtocol.AnteAcceptsIff | app/ante_handler.go:78-80 | the three filters in order accept a transaction exactly when its signers and fee are unlocked and no refused submission, locked signer or frozen message is reachable |
| HaltProtocol.CheckTxImpliesDelivery | app/proposal9.go:32-42 | on neutron-1 what the filters accept in CheckTx they accept in delivery at every height |
| HaltProtocol.RunSafe | app/govfilter/proposals.go:203-213 | over every run on neutron-1, above the halt no frozen message was executed on any path, governance executed only upgrades, stored code and text, and no message of a locked signer was executed from a transaction's own messages at any depth |
| HaltProtocol.RunFromBeforeHaltSafe | app/govfilter/proposals.go:203-242 | the same from any state up to the halt, with any proposals submitted before |
| Passage.DispatchUnchanged | app/staking_freeze.go:88-103 | above the halt, a message with nothing frozen, no refused submission and no legacy content in it is executed exactly as without circuit and hook |
| Passage.AcceptedTxUnchanged | app/govfilter/proposals.go:203-242 | above the halt, a transaction the filters accept and that has no legacy content has exactly the effect it has without them |
| Passage.DispatchedUnchanged | app/staking_freeze.go:88-103 | the same for a contract's dispatch of such a message |
| Passage.UpgradesUnchanged | app/govfilter/proposals.go:203-213 | a proposal of upgrades and stored code is executed as without guard, circuit and hook |
| Passage.TextRunsIffActive | app/govfilter/proposals.go:203-213 | the execution of a legacy text proposal by governance goes through exactly while the protections are active |
| LockedSigners.DispatchLockedIff | app/account_lock.go:93-115 | a message that is executed, on any path, brings a message of a locked signer with it if and only if the lock would have refused it |
| LockedSigners.RunLockedIff | app/account_lock.go:61-115 | over every run on neutron-1 a message of a locked signer is executed above the halt if and only if some step there is a contract's dispatch or a proposal that runs and that the lock would have refused |
| LockedSigners.ContractExecutionCarriesLocked | app/account_lock.go:61-69 | an execution signed and dispatched by a contract, with a message of the attacker inside, is such a step if it runs |
| HaltProtocol.HookedProposalPassesGuard | app/govfilter/proposals.go:203-242 | a proposal the submission hook accepted while active is executed, from any later state, exactly as without the guard |
| HaltProtocol.RecoveryRunsOnce | app/proposal9.go:27-50 | in every run the recovery has happened once, in its own block, if and only if that block was reached |
| HaltProtocol.RecoveryIsPassed | app/app.go:1406-1416 | every run that gets to the recovery height took a step from the block before it in which the recovery of that block's world succeeded |
| HaltProtocol.RunPastRecovery | app/proposal9.go:44-73 | in that world every listed contract was restorable and the list compatible, and afterwards every contract is done as listed and every denom has its total, if the two calls into other modules kept to their own |
| RecoveryBlock.RecoverSucceedsIff | app/proposal9.go:44-73 | the recovery succeeds if and only if every listed contract can be restored and the list is compatible, the calls into other modules succeed, and the recipient's balance with the listed coins of the attacker and the listed and unstaked ones of the voter, each up to what is spendable, is below 2^256 for every denom |
| RecoveryBlock.RecoverSteps | app/proposal9.go:51-73 | whatever the calls into other modules do, the first step leaves every contract done as listed and no other touched, and the last one makes or loses no coin |
| RecoveryBlock.RecoverCompletes | app/proposal9.go:44-73 | across the whole sequence each contract ends with its listed admin and cw2 value and, if it was consistent, with code, history and index in agreement, and no coin is made or lost |
| RecoveryBlock.RecoverSeizes | app/proposal9.go:61-71 | the recipient ends with what it had and both seizures, in every denom; the attacker loses each of the thirteen listed coins up to what is spendable; and what the voter keeps after unstaking and seizure |
| HaltProtocol.ReplayUnchanged | app/proposal9.go:32-42 | on other chains, and on neutron-1 up to the halt, every run reaches the state it reaches without the filters |
| WasmStore.EncodeInjective | app/restore_contract_admins.go:124-203 | the byte keys of contract info, storage, history and index never collide |
| Recovery.PrefixAndLength | app/restore_contract_admins.go:189-203 | a key with a contract's history prefix and eight more bytes is a history key of that contract, even if another address extends its bytes |
| Recovery.LastHistoryPosition | app/restore_contract_admins.go:189-203 | the reverse scan with its length filter returns the greatest position of exactly this contract, or nothing if it has none |
| Restore.NewestLegitimateIff | app/restore_contract_admins.go:171-187 | the walk returns a code exactly when it is that of the newest entry the attacker did not upload, with no unknown code after it |
| Recovery.LegitimateCodeID | app/restore_contract_admins.go:171-187 | the loop returns that code or the matching error, and says whether the contract must change |
| Recovery.RestoreContractCodeID | app/restore_contract_admins.go:124-169 | the store writes, in order, leave the specified store, and the loaded info keeps its admin |
| Recovery.RestoreCW2 | app/restore_contract_admins.go:109-120 | the contract then reads as having the given cw2 value, whatever it had before, nothing else changes, and an absent value is not written when none is given |
| Recovery.RestoreContractAdmins | app/restore_contract_admins.go:57-104 | outside its block it does nothing, and otherwise it runs the specified recovery, with its partial writes when it fails |
| Restore.RestoreAllFrame | app/restore_contract_admins.go:57-169 | on every store, also when the recovery fails with some writes made, no key of an unlisted contract changes |
| Restore.RestoreAllCodes | app/restore_contract_admins.go:57-169 | after a successful recovery every listed contract that was consistent is at its newest legitimate code with info, last history entry and single index entry in agreement |
| Restore.RestoreAllValues | app/restore_contract_admins.go:57-104 | on every store, after a successful recovery each contract has the admin and the cw2 value of its last listing |
| Restore.RestoreSucceedsIff | app/restore_contract_admins.go:57-104 | on every store the recovery succeeds if and only if every listed contract exists, has a legitimate code and is administered by the attacker or its listed admin, and repeated listings are compatible |
| SecondRestore.RestoreAllIdempotentIff | app/restore_contract_admins.go:57-169 | on every store, after a successful recovery another one succeeds and changes nothing if and only if no contract is listed with two admins and, in another block, no listed contract needs an entry that its history has no position for |
| SecondRestore.StuckIsWrittenAgain | app/restore_contract_admins.go:154-164 | a contract with the history position 2^64 - 1 that needs an entry is written again in every other block |
| SecondRestore.TwoAdminsRefusedLater | app/restore_contract_admins.go:91-96 | a list with two admins for one contract that is restored once and refused the second time |
| Clawback.ClawAllConserves | app/clawback.go:48-103 | the total of every denom is unchanged, for every list of transfers and any recipient, also when it is a source |
| Clawback.ClawAllFrame | app/clawback.go:48-103 | balances that are neither a source nor the recipient's are untouched |
| Clawback.ClawAllWellFormed | app/clawback.go:97-103 | no balance becomes negative and no zero balance is stored |
| Clawback.SeizedInAll | app/clawback.go:73-95 | over several listed entries for one account and denom exactly the smaller of the listed sum and the spendable balance is taken |
| Clawback.ClawFromRecipient | app/clawback.go:73-103 | clawing from the recipient leaves its balance |
| Clawback.RecipientGains | app/clawback.go:73-95 | the recipient's final balance is what it had and, for every other source, the smaller of the listed sum and the spendable balance |
| Clawback.ClawAllReturnsIff | app/clawback.go:73-95 | a seizure that returns is the exact one, and it returns if and only if the recipient's final balances are below 2^256 |
| Clawback.ClawAllReturns | app/clawback.go:73-95 | it always returns while the total of every denom is below 2^256 |
| StolenFunds.AttackerSeizure | app/clawback.go:18-69 | the attacker loses, of each of the thirteen listed coins, the smaller of the listed amount and the spendable balance |
| StolenFunds.AttackerKeeps | app/clawback.go:18-69 | the attacker's balances in all other denoms are unchanged |
| StolenFunds.RecipientReceives | app/clawback.go:48-69 | in every denom the recipient gains what is taken from the attacker and, in the native denom, from the voter |
| StolenFunds.RecipientReceivesNtrn | app/clawback.go:18-69 | the gain in the native denom in figures |
| StolenFunds.VoterSeizure | app/clawback.go:35-60 | what is taken from the voter under the listed amounts and any unstaked amount |
| Clawback.SetClawbackBalance | app/clawback.go:97-103 | the one entry is set, or removed when the amount is zero |
| Clawback.ClawCoin | app/clawback.go:73-95 | one in-place transfer is the specified one, or panics after the debit exactly when the credit needs more than 256 bits |
| Clawback.ClawEach | app/clawback.go:61-69 | the loop applies the transfers in order, up to the first panic |
| StolenFunds.ClawbackStolenFunds | app/clawback.go:48-71 | the recipient's account exists afterwards, and the listed transfers and the unstaked amount were seized in order |
| Pagination.WalkYieldsAllHitsIff | utils/bank.go:26-108 | a first page at offset 0 and the pages its keys lead to contain every matching balance once and in order, if and only if the limit is below 2^64 - 1 or does no harm; otherwise each comes twice; the pages are finitely many in every case |
| Pagination.OffsetPageCorrectIff | utils/bank.go:76-101 | an offset page is the slice of the matching balances and carries the right next key if and only if offset + limit + 1 does not wrap around, or the exact cases where wrapping does no harm |
| Pagination.OffsetPageCorrect | utils/bank.go:76-101 | without wrapping the page is that slice and the counted total is the number of matches |
| Pagination.CountedTotal | utils/bank.go:80-107 | a requested total is the number of matches for every offset and limit, wrapping or not |
| Pagination.WrappedPageIsEmpty | utils/bank.go:71-101 | a request whose end wraps to 0: the second of two matches is asked for and the page is empty |
| Pagination.KeyPageCorrect | utils/bank.go:47-69 | a keyed page holds the matches from the key on, at most limit, and its next key is the first balance not looked at |
| Pagination.FollowYields | utils/bank.go:47-69 | following the keys from any key yields exactly the matches from there on |
| Pagination.IterateFromKey | utils/bank.go:47-69 | the callback loop with its accumulators is the specified keyed page |
| Pagination.IterateFromOffset | utils/bank.go:76-101 | the callback loop with its accumulators is the specified offset page |
| Pagination.FilteredPaginateAccountBalances | utils/bank.go:14-109 | which requests are refused, which page and which total the others get, with the default limit |
| SanitizedCoins.SanitizeCorrect | utils/bank.go:112-130 | non-negative coins become strictly ascending positive coins with the same total per denom, or the call panics, exactly on a nameless coin or a total of 2^256 or more |
| SanitizedCoins.SanitizeIgnoresOrder | utils/bank.go:112-130 | every permutation of non-negative coins gives the same result or the same panic |
| SanitizedCoins.SanitizeIdempotent | utils/bank.go:112-130 | sanitised coins are unchanged |
| SanitizedCoins.SanitizedUnique | utils/bank.go:112-130 | there is one sanitised list per family of totals |
| SanitizedCoins.SanitizePanicsIff | utils/bank.go:116-128 | for amounts of either sign it panics exactly on a nameless coin with an amount, or when the amounts of a denom, added up in the given order, leave 256 bits on the way |
| SanitizedCoins.SanitizePanicsIffTotal | utils/bank.go:116-128 | for non-negative amounts the second case is a total of 2^256 or more |
| SanitizedCoins.TwoGreatestPanic | utils/bank.go:124-126 | two coins of one denom with the greatest amount make it panic |
| SanitizedCoins.SortStable | utils/bank.go:113-115 | the in-place sort of the array is the specified stable sort |
| SanitizedCoins.SanitizeCoins | utils/bank.go:112-130 | the caller's array is left sorted and the result is the specified one |
| SudoWrapper.CommitOrRecord | x/contractmanager/ibc_middleware.go:32-63 | a call that returns either commits all writes and records nothing or discards them and records exactly one failure |
| SudoWrapper.AnswerOf | x/contractmanager/ibc_middleware.go:32-63 | what every returning call answers, by what the contract does: its own response or its own error when it keeps to its limit and does not panic, and otherwise the out-of-gas error |
| SudoWrapper.AnswersWhenPaid | x/contractmanager/ibc_middleware.go:32-63 | a caller with gas for the whole call gets an answer if and only if the contract does not end in a panic that is not absorbed |
| SudoWrapper.SuccessApplies | x/contractmanager/ibc_middleware.go:32-63 | a successful call leaves in the store every write of the contract in order |
| SudoWrapper.FailureHolds | x/contractmanager/keeper/failure.go:26-41 | the recorded failure holds the call's address and payload, and its text is the same for two coded errors of one codespace and code, and differs when they share only one of the two |
| SudoWrapper.ChargeBounded | x/contractmanager/ibc_middleware.go:32-63 | a returning call charges the reading of the limit, the recording if it failed, and what the contract used, which is at most the limit |
| SudoWrapper.AbsorbedIff | x/contractmanager/ibc_middleware.go:71-82 | a contract that asks for more gas than its limit has its own out-of-gas panic absorbed; otherwise a panic is another meter's, and is absorbed if and only if it is out-of-gas and the contract used exactly its limit |
| SudoWrapper.ForeignPanicAbsorbed | x/contractmanager/ibc_middleware.go:71-82 | a contract that uses exactly its limit and meets another meter's out-of-gas panic |
| SudoWrapper.PanicsOtherThanAbsorbedPass | x/contractmanager/ibc_middleware.go:71-82 | every panic but out-of-gas on an exhausted nested meter reaches the caller with nothing changed, and an absorbed one becomes the out-of-gas error when the caller can pay |
| SudoWrapper.RunCommitsSuccesses | x/contractmanager/ibc_middleware.go:32-63 | over every run of returning calls the store is that of the successful calls alone |
| SudoWrapper.RunCountsFailures | x/contractmanager/ibc_middleware.go:32-63 | over every run of returning calls the stored failures grow by exactly the failed calls less those whose contract was out of numbers, and without such calls earlier failures stay as they are |
| SudoWrapper.RunReplacesNone | x/contractmanager/keeper/failure.go:43-58 | there are no such calls while every contract has numbers left for the run |
| SudoWrapper.RecordIsNewIff | x/contractmanager/keeper/failure.go:43-58 | a recorded failure replaces no other if and only if the contract does not already have both the greatest number and 0 |
| SudoWrapper.FailurePrefixDecides | x/contractmanager/types/keys.go:29-46 | a key under the prefix of one contract's failures is a key of that contract |
| SudoWrapper.FailureKeyOrder | x/contractmanager/types/keys.go:29-46 | the failures of one contract sort by number |
| SudoWrapper.Chain.GetNextFailureIDKey | x/contractmanager/keeper/failure.go:43-58 | one above the number stored in the last failure of exactly this contract, wrapping, and 0 for the first |
| SudoWrapper.Chain.AddContractFailure | x/contractmanager/keeper/failure.go:26-41 | the redacted failure is stored under the contract's next number unless gas runs out |
| SudoWrapper.Chain.Sudo | x/contractmanager/ibc_middleware.go:32-63 | reading the limit, cached store, nested meter, recovery and recording, step by step, have the specified effect |
| MarketMaps.MergeAssociative | network/slinky_genesis.go:121-147 | merging three maps does not depend on which two come first |
| MarketMaps.MergeIdempotent | network/slinky_genesis.go:121-147 | merging the same map again adds nothing |
| MarketMaps.MergeWithItself | network/slinky_genesis.go:121-147 | a map merged into itself is unchanged |
| MarketMaps.MergeKeeps | network/slinky_genesis.go:121-147 | all markets of both maps are there, with the left ticker, the left providers first and the keys of both |
| MarketMaps.ProviderLostIff | network/slinky_genesis.go:130-151 | a right provider is lost if and only if it is not among the left ones and some left provider's name and ticker, written together, are the same text |
| MarketMaps.NoProviderLostIff | network/slinky_genesis.go:130-151 | none is lost if and only if there is no such pair |
| MarketMaps.KeysApart | network/slinky_genesis.go:149-151 | providers with names of one length share a key exactly when name and ticker agree |
| MarketMaps.DisjointAppends | network/slinky_genesis.go:130-142 | right providers whose name and ticker differ as a text from every left one are all appended in order |
| MarketMaps.KeysCollide | network/slinky_genesis.go:130-151 | two different providers with one key, and a merge that drops the right one |
| MarketMaps.MergeProviders | network/slinky_genesis.go:130-142 | the two loops with the seen set merge one market as specified |
| MarketMaps.Markets.MergeMarketMaps | network/slinky_genesis.go:121-147 | visiting the right map in any order gives the one specified map |

## Left out

- PrecDecimals.PrecDec.ApproxRoot: for roots other than the square root the result is tied to the recursive loop and RootResidual says where a loop ends by its delta test, with no proof that it does, because the code promises none and can stop at its cap.
- PrecDecimals.PrecDec.Ceil: no range test, because the source makes none.
- Clawback.SeizedInAll: the spendable balance is the balance less the locked amount, or zero, and the locked amounts stay fixed during the clawback.
- SudoWrapper.Chain.AddContractFailure: the failure store is a map by contract and number; FailurePrefixDecides and FailureKeyOrder tie that to the bytes of the keys, for addresses without the separator, as bech32 texts are.
- RecoveryBlock.RecoverCompletes: disabling the undelegations manager and unstaking are arguments, and the end-to-end result is stated when they leave the listed contracts and the totals alone, because both call into modules and a contract that are not modelled; RecoverSteps needs no such condition.
- Restore.RestoreAllCodes: code, history and index are stated for contracts that start consistent, as the wasm keeper leaves them, with a history position left where an entry must be added; the other results hold on every store.
- Sortable.EncodingOrder: the zero flag of Go's formatting is taken to pad a text with zeros on the left, as the code expects.
- The handlers of the modules and their work between blocks are parameters of the chain; transaction simulation is not modelled, and constant addresses are taken to be valid.
- The gas that reading the limit and recording a failure cost is a parameter, and the response of a contract is a text.
- Nil decimals and nil amounts, the float, JSON, YAML and Amino forms, and the formatting verbs of decimals.
- Bech32 addresses, protobuf and codec errors are options or typed values; logging, events and telemetry are not modelled.
- The history listing of the wasm keeper is taken to return this contract's entries in the order of their positions; keys of the wasm module other than info, storage, history and index are not modelled.
- The list of contracts to restore is an argument, not the constant of the source.
- Go slices that share a backing array after a market merge, and the filtering of CoinMarketCap markets.
- Application wiring, command lines, genesis files, simulations and the wasm bindings.
- The dex, cron, fee refunder, interchain queries, rate limit, hooks and GMP modules, signature verification and state proofs.
