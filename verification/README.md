# Verified model of the vesting program and its services

The repository is an on-chain token-vesting program with the off-chain services around it. This project models the parts
where correctness is subtle and proves what they promise, over every input, every run or every interleaving.

- **The vesting program** (`Accounts`, `Vesting`, `Oracle`, `Program`, `StreamEscrow`). A stream locks tokens in a vault
  and is driven by `withdraw`, `cancel`, `unlock_milestone`, `edit_milestone`, `edit_cliff` and `edit_linear` while a
  clock advances. `Program` gives each instruction as a function from the accounts before to the accounts after;
  `StreamEscrow` is the same account as an object whose handlers update fields, a milestone array and the vault in place,
  with every check and write in the program's order, and a rollback when a transaction fails half-way. `Effects` and
  `Refusals` say field by field what every committed instruction does and why a refused one is refused. `Invariants`,
  `Progress`, `Payouts` and `Independence` prove what holds in every reachable state and over whole runs: solvency,
  conservation, the milestone ledger, exact and final completion, what extensions do to coverage, and exactly when
  payouts do not depend on how often the recipient withdraws.
- **The indexer** (`Indexer`, `IndexerColumns`, `IndexerEvents`, `IndexerLists`, `IndexerRefinement`,
  `IndexerRedelivery`). Its handlers fold the program's events into a database row. After an in-order delivery, whatever
  other streams' events come in between and however often the creation is repeated, the row equals the chain under an
  exact condition; unlocks count once under any redelivery.
- **The CSV diff** (`CsvRecords`, `CsvMilestones`, `CsvDiff`, `CsvSecondPass`). Rows are normalised to base units, matched
  greedily through two key indexes and compared field by field; the change list is a correct patch, and streams written
  down and uploaded again are reported unchanged.
- **Smaller engines**: exact decimal printing (`TokenFormat` and `DashboardFormat`, on `Text`), cyclic RPC failover
  (`RpcFailover`), the asynchronous balance hook (`TokenBalance`) and the documentation search (`DocsSearch`).

The clock never runs backwards and is not negative at creation, nothing outside the program puts tokens into a vault, and
token transfers deliver what they take (creation refuses other mints). A transaction that fails changes nothing.
Arithmetic on the chain is modelled at its width: 64- and 128-bit values, checked steps, truncating casts.

Some properties that one might expect are false of the code. Each is stated here with the exact condition under which it
holds, and with an input that breaks it:

- What was withdrawn stays within what is vested, except across an end extension, and across that exactly when nothing is
  withdrawn or the new schedule still vests enough (`Payouts.ExtensionKeepsCoverageExactlyWhen`,
  `PayoutExamples.ExtensionCanUncover`). While it does not, payouts refuse.
- Early withdrawals leave the rest of a run alone unless a step takes notice of them, and two kinds can: a cliff edit,
  refused once anything was withdrawn, and a cancellation, refused while the stream is overdrawn
  (`Independence.StepKeepsSameExactlyWhen`, `Independence.WithdrawalsAreInertExactlyWhen`,
  `PayoutExamples.CliffEditBreaksIndependence`, `PayoutExamples.ExtensionBreaksIndependence`).
- The cast of the withdrawal fee loses part of it exactly when the fee does not fit 64 bits, which needs at least eleven
  decimals (`Oracle.FeeCastLosslessExactlyWhen`, `PayoutExamples.TruncatedFeeIsCharged`).
- The row's unlocked amount falls short of the chain's by exactly the unlocks that share their transaction with an earlier
  event of their stream (`IndexerRefinement.UnlockedFallsShortBy`, `IndexerExamples.SharedTransactionLosesUnlock`).
- The row's milestone list is wrong exactly when some milestone was neither edited since the last complete read of the
  accounts nor found then at its final amount, as after a failed read; a repeated creation can repair it
  (`IndexerRefinement.ListEqualsChainExactlyWhen`, `IndexerExamples.FailedReadPadsTheList`,
  `IndexerLists.LastReadComesRight`).
- A second delivery of an event changes nothing, except that a cancellation which paid the recipient and an edit to another
  amount are added to their row again (`IndexerColumns.RedeliveryIsHarmlessExactlyWhen`,
  `IndexerExamples.CancellationCountsTwice`).
- A milestone split of a negative amount adds up only when it divides evenly (`CsvRecords.SharesAddUpExactlyWhen`,
  `CsvRecords.NormalizedMilestonesAddUpExactlyWhen`, `CsvMilestones.NegativeSplitFallsShort`).
- A reference matched by exact key agrees with its row only for mints without decimals and records of zeros, because the
  key is computed from a row scaled twice (`CsvSecondPass.ExactMatchAgreesExactlyWhen`,
  `CsvSecondPass.ExactKeyMatchesWrongAmount`). Keys confuse amounts only between records whose recipients and mints
  hold different numbers of the key separator (`CsvSecondPass.SeparatorInMintConfusesKeys`).
- The SDK prints a negative amount below one token with the padding before the sign
  (`TokenFormat.NegativePrintsExactlyWhen`, `TokenFormat.SmallNegativePrintsWrong`).
- The balance hook's spinner stays on when a cleanup comes while it is loading and no request follows
  (`TokenBalance.StuckExactlyAfterCleanup`, `TokenBalance.SpinnerCanStick`).

`dafny verify dfyconfig.toml` checks the project.

## Model

| member | source | states |
|---|---|---|
| Invariants.TokensAreConserved | programs/unified-flow/src/lib.rs:278-302 | in every reachable state all deposits are in the vault, with the recipient or back with the creator, and the vault holds exactly what is owed until cancellation and nothing after it |
| Invariants.ReachableIsValid | programs/unified-flow/src/lib.rs:35-844 | whatever instructions are tried in whatever time order, the full invariant holds: solvency, milestone ledger, schedule, exact status |
| Invariants.CreateEstablishesValid | programs/unified-flow/src/lib.rs:35-325 | every accepted creation starts in the invariant |
| Invariants.StepKeepsValid | programs/unified-flow/src/lib.rs:373-844 | one instruction, committed or refused, keeps the invariant as the clock advances |
| Invariants.RunKeepsValid | programs/unified-flow/src/lib.rs:373-844 | every time-ordered run keeps the invariant |
| Invariants.WithdrawKeepsValid | programs/unified-flow/src/lib.rs:373-470 | a committed withdrawal keeps the invariant |
| Invariants.CancelKeepsValid | programs/unified-flow/src/lib.rs:472-561 | a committed cancellation keeps the invariant and settles the vault to zero |
| Invariants.UnlockKeepsValid | programs/unified-flow/src/lib.rs:562-613 | an unlock keeps the milestone ledger: unlocked amount, cursor and status stay in step |
| Invariants.EditedLedger | programs/unified-flow/src/lib.rs:644-686 | replacing a locked amount shifts the total by the difference, keeps the ledger, and cannot put the total below what was withdrawn |
| Invariants.EditMilestoneKeepsValid | programs/unified-flow/src/lib.rs:614-729 | a committed milestone edit keeps the invariant, including solvency of the resized vault |
| Invariants.EditCliffKeepsValid | programs/unified-flow/src/lib.rs:730-771 | a committed cliff edit leaves a well-timed, solvent stream |
| Invariants.EditLinearKeepsValid | programs/unified-flow/src/lib.rs:773-844 | a committed extension or top-up leaves a well-timed, solvent stream |
| Invariants.MilestonesAddUp | programs/unified-flow/src/lib.rs:577-602 | in every reachable milestone stream the total is the unlocked sum plus the locked amounts, a milestone is unlocked exactly below the cursor, locked amounts are positive, and no more is withdrawn than unlocked |
| Invariants.UnlockedAllExactlyWhenTotal | programs/unified-flow/src/lib.rs:600-602 | the cursor has passed every milestone exactly when the unlocked amount is the total |
| Invariants.SumCheckedIsSum | programs/unified-flow/src/lib.rs:89-105 | the accumulating loop accepts exactly the positive amounts whose sum fits 64 bits, and returns that sum |
| Invariants.VestedInReach | programs/unified-flow/src/lib.rs:1395-1425 | in every reachable state no vesting check overflows, the casts are lossless, and the vested amount is the total exactly from the end (or the last unlock) on |
| Invariants.CompletionIsExact | programs/unified-flow/src/lib.rs:408-410 | an uncancelled timed stream is completed exactly when all is withdrawn; a milestone stream exactly when all is unlocked |
| Invariants.CompletionIsFinal | programs/unified-flow/src/lib.rs:482-485 | status leaves ACTIVE at most once, a cancelled stream is frozen, and a completed one refuses every cancellation |
| Invariants.StatusIsFinalOverRuns | programs/unified-flow/src/lib.rs:482-485 | the same over whole runs |
| Invariants.CreateSucceedsExactlyWhen | programs/unified-flow/src/lib.rs:57-302 | a creation commits if and only if the creator can fund an acceptable schedule from the right token account under the listed guards: positive milestones adding up to the amount, or start, cliff and end in order at least a minute apart; neither the sum nor the duration check can overflow first |
| Invariants.WithdrawSucceedsExactlyWhen | programs/unified-flow/src/lib.rs:373-470 | a withdrawal commits if and only if the recipient asks with a token account of their own and of the mint, something is due and the fee can be charged: the vault always covers it |
| Invariants.CancelSucceedsExactlyWhen | programs/unified-flow/src/lib.rs:472-561 | a cancellation commits if and only if the creator asks with both parties' token accounts on a live stream that is neither fully vested nor overdrawn: both transfers are always covered |
| Invariants.UnlockSucceedsExactlyWhen | programs/unified-flow/src/lib.rs:562-602 | an unlock commits if and only if it names the next milestone of an active stream: neither overflow check can fire |
| Invariants.EditMilestoneSucceedsExactlyWhen | programs/unified-flow/src/lib.rs:614-715 | an edit commits if and only if the creator names their token account, the milestone is still locked, the amount positive, and a raise affordable and in range: the guard on the withdrawn amount can never fire |
| Invariants.EditLinearSucceedsExactlyWhen | programs/unified-flow/src/lib.rs:782-831 | a linear edit commits if and only if the creator names their token account and a running timed stream is extended or affordably topped up within 64 bits |
| Invariants.EditCliffSucceedsExactlyWhen | programs/unified-flow/src/lib.rs:730-761 | a cliff edit commits if and only if the creator asks before the end of a live cliff stream nothing was withdrawn from, for a date inside the schedule and not past |
| Effects.CreateEffect | programs/unified-flow/src/lib.rs:172-325 | a creation leaves an active stream of the kind its type code names, with the requested parties, dates and locked milestones, the amount in the vault, and an event that announces it |
| Effects.LinearEditEffect | programs/unified-flow/src/lib.rs:799-841 | a committed linear edit moves the end to the later of the two dates, puts exactly the top-up into the total, the vault and the deposits, touches nothing else, and reports both ends and both totals |
| Effects.CliffEditEffect | programs/unified-flow/src/lib.rs:752-769 | a committed cliff edit moves the cliff and nothing else, and reports both dates |
| Effects.UnlockEffect | programs/unified-flow/src/lib.rs:586-611 | a committed unlock marks its milestone with the time and keeps its amount, adds it to the unlocked part, advances the cursor by one, completes the stream exactly at the last milestone, and moves no token |
| Effects.MilestoneEditEffect | programs/unified-flow/src/lib.rs:644-727 | a committed milestone edit changes one amount and shifts total and vault by the difference: a raise is a deposit, a cut goes back to the creator |
| Effects.RunAddsUp | programs/unified-flow/src/lib.rs:614-844 | over any run total and deposits grow by exactly what committed top-ups and raises asked for, less or beside what cuts returned, and the end is the latest date a committed edit asked for |
| Refusals.RefusalNamesItsCause | programs/unified-flow/src/lib.rs:373-831 | every error an instruction on a valid stream reports names a guard that does not hold; no transfer out of the vault fails, and overflow is reported only of an overdrawn stream, a fee or an amount out of range |
| Refusals.CreationRefusalNamesItsCause | programs/unified-flow/src/lib.rs:57-302 | every error of a refused creation is true of the request |
| Progress.RunsOnlyMoveForward | programs/unified-flow/src/lib.rs:373-844 | over any run the parties and terms stay fixed, paid and withdrawn amounts, end date and unlocked part never shrink, the cliff is fixed once anything was withdrawn, and an unlocked milestone is never touched again |
| Payouts.WithdrawEffect | programs/unified-flow/src/lib.rs:378-419 | a withdrawal brings the recipient's total to exactly what is vested now, leaves the rest in the vault, and changes nothing else |
| Payouts.CancelEffect | programs/unified-flow/src/lib.rs:484-548 | a cancellation brings the recipient's lifetime total to exactly what is vested, returns exactly the rest to the creator, and empties the vault |
| Payouts.PayoutsAreReported | programs/unified-flow/src/lib.rs:459-558 | the claim and cancel events report exactly what each party receives and what the recipient then holds |
| Payouts.WithdrawalChargesNinetyNineCents | programs/unified-flow/src/lib.rs:384-430 | whatever bytes the feed holds, a committed withdrawal found a positive price in them and charges $0.99 at it rounded down by less than a lamport, if and only if that is below 2^64 lamports, as it is up to ten decimals |
| Payouts.CoverageKept | programs/unified-flow/src/lib.rs:791-816 | time and every instruction except an end extension keep the withdrawn amount within the vested amount |
| Payouts.ExtensionKeepsCoverageExactlyWhen | programs/unified-flow/src/lib.rs:799-831 | an extension keeps the withdrawn amount within the vested one if and only if nothing is withdrawn or withdrawn*newDuration <= newTotal*elapsed |
| Payouts.CoverageKeptExactlyWhen | programs/unified-flow/src/lib.rs:743-831 | any instruction or refused attempt keeps coverage if and only if it is not a committed extension that fails this comparison |
| Payouts.OverdrawnRefusesPayout | programs/unified-flow/src/lib.rs:378-382 | while less is vested than was withdrawn, `withdraw` and `cancel` refuse and change nothing |
| Payouts.FinalWithdrawalEmptiesVault | programs/unified-flow/src/lib.rs:1405-1407 | from the end on, a committed withdrawal pays all that is left, empties the vault and completes the stream |
| Payouts.FinalWithdrawalCommits | programs/unified-flow/src/lib.rs:378-399 | from the end on, a withdrawal into the right account whose fee can be charged commits exactly when something is left |
| Payouts.PayoutReachesEntitlement | programs/unified-flow/src/lib.rs:378-407 | every payout brings the recipient's total to the vested amount, and no other instruction pays the recipient |
| Payouts.ClaimsEqualVestedAtLastPayout | programs/unified-flow/src/lib.rs:378-407 | over any run, what the recipient was paid is what was vested at the last payout |
| Independence.StepKeepsSameExactlyWhen | programs/unified-flow/src/lib.rs:477-489 | of two streams that differ at most in what was withdrawn, one step keeps that so if and only if it is not a cliff edit or cancellation whose other guards pass and whose withdrawn-amount guard decides differently |
| Independence.CliffEditKeepsSameExactlyWhen | programs/unified-flow/src/lib.rs:743-746 | for a cliff edit that passes every other guard with a new date: if and only if both or neither were withdrawn from |
| Independence.CancelKeepsSameExactlyWhen | programs/unified-flow/src/lib.rs:485-489 | for a cancellation that passes every other guard: if and only if both or neither were withdrawn from beyond the vested amount |
| Independence.WithdrawalsAreInertExactlyWhen | programs/unified-flow/src/lib.rs:378-410 | a run and its version without withdrawals stay alike after every step if and only if no step tells them apart |
| Independence.PayoutsIndependentOfWithdrawals | programs/unified-flow/src/lib.rs:484-493 | two runs that differ only in withdrawals that no step takes notice of end alike, and after a cancellation both parties hold the same in each |
| Independence.LifetimeTotalIndependentOfWithdrawals | programs/unified-flow/src/lib.rs:378-407 | recipients who withdraw last at the same moment of two such runs have the same lifetime total, however often they withdrew before |
| Independence.HarmlessRunsDoNotCare | programs/unified-flow/src/lib.rs:743-804 | no step takes notice when each cliff edit finds both or neither withdrawn from and no extension uncovers either run |
| PayoutExamples.TruncatedFeeIsCharged | programs/unified-flow/src/lib.rs:384-467 | a withdrawal from a reachable stream that commits and reports part of the $0.99 its price asks for |
| PayoutExamples.ExtensionCanUncover | programs/unified-flow/src/lib.rs:799-804 | a reachable stream whose recipient holds more than is vested after an extension, and which refuses its cancellation |
| PayoutExamples.ExtensionBreaksIndependence | programs/unified-flow/src/lib.rs:799-804 | with an extension in the run, an early withdrawal decides whether the same later cancellation commits |
| PayoutExamples.CliffEditBreaksIndependence | programs/unified-flow/src/lib.rs:743-761 | with no extension, an early withdrawal fixes the cliff: the same edit and cancellation then pay the recipient 600 tokens instead of none |
| Vesting.VestedAmountIsExact | programs/unified-flow/src/lib.rs:1395-1425 | on every schedule creation accepts, the checked 64/128-bit computation with its two casts equals the unbounded-integer share |
| Vesting.VestedAmountRoundsDown | programs/unified-flow/src/lib.rs:1409-1424 | between start and end the vested amount v satisfies v*duration <= total*elapsed < (v+1)*duration |
| Vesting.CliffJoinsLinear | programs/unified-flow/src/lib.rs:1402-1404 | a cliff stream pays nothing before its cliff and follows the linear schedule from it on |
| Vesting.EntitlementWithinTotal | programs/unified-flow/src/lib.rs:1395-1425 | the vested amount never exceeds the total |
| Vesting.FullyVestedExactlyAtEnd | programs/unified-flow/src/lib.rs:1405-1407 | a timed stream is fully vested at its end and at no earlier moment |
| Vesting.EntitlementGrowsWithTime | programs/unified-flow/src/lib.rs:1395-1425 | the vested amount never falls as time passes |
| Vesting.EntitlementGrowsWithTotal | programs/unified-flow/src/lib.rs:1418-1422 | a larger total never vests less at the same moment |
| Vesting.EntitlementShrinksWithEnd | programs/unified-flow/src/lib.rs:1413-1422 | a later end never vests more at the same moment |
| Oracle.LittleEndianRoundTrip | programs/unified-flow/src/oracle.rs:50-61 | reading back the little-endian bytes of a value yields the value |
| Oracle.ReadsWhatTheFeedHolds | programs/unified-flow/src/oracle.rs:40-66 | a round laid out in the feed's format is read back whole, and is refused exactly when an hour old or not positive |
| Oracle.ShortFeedIsRefused | programs/unified-flow/src/oracle.rs:43-43 | data is refused as no feed exactly when it is shorter than 232 bytes |
| Oracle.FeeComputedExactlyWhen | programs/unified-flow/src/lib.rs:385-398 | the checked fee arithmetic succeeds exactly for at most 27 decimals and an answer below 2^128/100 |
| Oracle.FeeIsNinetyNineCentsExactlyWhen | programs/unified-flow/src/lib.rs:384-399 | the fee charged is $0.99 at the quoted price within one lamport if and only if that is below 2^64 lamports, as it is up to ten decimals |
| Oracle.FeeCastLosslessExactlyWhen | programs/unified-flow/src/lib.rs:398-398 | the cast keeps the whole fee if and only if $0.99 at that price is below 2^64 lamports |
| Oracle.FeeTruncatesAtElevenDecimals | programs/unified-flow/src/lib.rs:388-398 | an eleven-decimal price for which the cast undercharges, and charges less than a higher price |
| Oracle.FeeFallsAsPriceRises | programs/unified-flow/src/lib.rs:384-399 | a higher price never costs more lamports, for any decimals, once the fee fits 64 bits at the lower one |
| StreamEscrows.SumMilestones | programs/unified-flow/src/lib.rs:89-100 | the loop agrees with the recursive sum on value and on which error comes first |
| StreamEscrows.ValidateSchedule | programs/unified-flow/src/lib.rs:67-127 | the type, milestone and time checks report the specified error or count |
| StreamEscrows.CreateStream | programs/unified-flow/src/lib.rs:35-325 | a fresh account in the specified state with its event, or the specified error and no account |
| StreamEscrows.StreamEscrow.constructor | programs/unified-flow/src/lib.rs:172-194 | a new active stream with an empty vault and the given locked milestones |
| StreamEscrows.StreamEscrow.Withdraw | programs/unified-flow/src/lib.rs:373-470 | in-place handler: event and whole new state as specified, or the specified error and the old state although the claim is booked before the transfers |
| StreamEscrows.StreamEscrow.ClaimVested | programs/unified-flow/src/lib.rs:379-467 | the claim from the vested amount on: event and whole new state as specified, or error and old state |
| StreamEscrows.StreamEscrow.PayClaim | programs/unified-flow/src/lib.rs:402-454 | booking the claim and the two transfers: full effect when both succeed, otherwise the error of the first that fails |
| StreamEscrows.StreamEscrow.Cancel | programs/unified-flow/src/lib.rs:472-561 | in-place handler with two conditional transfers: whole new state as specified, or error and old state |
| StreamEscrows.StreamEscrow.SettleVested | programs/unified-flow/src/lib.rs:485-558 | the cancellation from the vested amount on: event and whole new state as specified, or error and old state |
| StreamEscrows.StreamEscrow.SplitVault | programs/unified-flow/src/lib.rs:516-548 | both transfers happen exactly when the vault covers their sum |
| StreamEscrows.StreamEscrow.UnlockMilestone | programs/unified-flow/src/lib.rs:562-613 | in-place handler: milestone, amount, cursor and status move together, or nothing does |
| StreamEscrows.StreamEscrow.EditMilestone | programs/unified-flow/src/lib.rs:614-729 | in-place handler that overwrites the amount before its last checks: whole new state as specified, or error and old state |
| StreamEscrows.StreamEscrow.ResizeTotal | programs/unified-flow/src/lib.rs:647-715 | total and vault move by the same difference, in or out, with each failure named |
| StreamEscrows.StreamEscrow.EditCliff | programs/unified-flow/src/lib.rs:730-771 | in-place handler: only the cliff moves, or nothing does |
| StreamEscrows.StreamEscrow.EditLinear | programs/unified-flow/src/lib.rs:773-844 | in-place handler that moves the end before the top-up checks: event and whole new state of the specification that `Effects.LinearEditEffect` pins down field by field, or error and old state |
| StreamEscrows.StreamEscrow.Process | programs/unified-flow/src/lib.rs:373-844 | any transaction leaves the account exactly where the run semantics says, so every theorem about runs applies to the object |
| StreamEscrows.StreamEscrow.Rollback | programs/unified-flow/src/lib.rs:645-686 | a failed transaction's writes are undone completely |
| IndexerRefinement.RowEqualsChain | backend/src/services/streamIndexer.ts:150-505 | a stream's events delivered in order, interleaved with any other streams' events and with repeats of its creation, leave a row equal to the chain, milestone list included, if and only if every unlock is the first event of its stream in its transaction and every milestone was edited since the last complete read of the accounts or found then at its final amount |
| IndexerRefinement.TotalsEqualChainExactlyWhen | backend/src/services/streamIndexer.ts:205-496 | whatever the milestone reads returned and however often the creation was delivered again, every column but the list (total, schedule, counts, unlocked amount, status, completion time) equals the chain and `withdrawn` is all that was ever paid, if and only if every unlock comes first in its transaction |
| IndexerRefinement.UnlockedFallsShortBy | backend/src/services/streamIndexer.ts:319-347 | the row's unlocked amount falls short of the chain's by exactly what the unlocks add up to that share their transaction with an earlier event of the stream |
| IndexerRefinement.UnlockedEqualsChainExactlyWhen | backend/src/services/streamIndexer.ts:319-347 | so it never exceeds the chain's, and equals it if and only if there is no such unlock |
| IndexerRefinement.ListEqualsChainExactlyWhen | backend/src/services/streamIndexer.ts:161-232 | the stored list equals the chain's if and only if every milestone was edited since the last complete read, first or repeated, or found then at its final amount |
| IndexerRefinement.StepMirrored | backend/src/services/streamIndexer.ts:245-505 | one committed instruction and its event keep the row a picture of the chain |
| IndexerRefinement.CreationMirrored | backend/src/services/streamIndexer.ts:205-232 | the row a creation inserts mirrors the new stream, and stores what the milestone reads gave |
| IndexerRefinement.RunMirrored | backend/src/services/streamIndexer.ts:245-505 | folding the events of any run over a row that mirrors its start gives a row that mirrors its end |
| IndexerRefinement.DeliveryIsFold | backend/src/services/streamIndexer.ts:205-505 | when no unlock is lost, delivering among other streams' events and repeated creations is folding the stream's own events, in every column but the list |
| IndexerRefinement.RunUnlocks | programs/unified-flow/src/lib.rs:591-602 | on the chain the unlocked amount is the sum of the run's unlock events, each positive |
| IndexerRefinement.RowUnlocks | backend/src/services/streamIndexer.ts:322-341 | in the row it is that sum less exactly the unlocks that do not come first in their transactions |
| IndexerRefinement.WithdrawMirrored | backend/src/services/streamIndexer.ts:262-274 | the claim handler's total and recomputed status match the chain |
| IndexerRefinement.CancelMirrored | backend/src/services/streamIndexer.ts:377-386 | adding the cancel payout keeps `withdrawn` equal to everything paid |
| IndexerRefinement.UnlockMirrored | backend/src/services/streamIndexer.ts:326-341 | completion by accumulated amount coincides with completion by cursor on the chain |
| IndexerLists.EditedListHolds | backend/src/services/streamIndexer.ts:418-435 | split, pad, overwrite and re-join rewrite exactly the edited entry of the stored list |
| IndexerLists.DeliveriesKeepFollowing | backend/src/services/streamIndexer.ts:181-435 | after the events of a run, whatever is redelivered or lost, the list holds the last complete read with the milestones edited since at the chain's final amounts, or "0" where nothing was read |
| IndexerLists.RepeatedCreationHolds | backend/src/services/streamIndexer.ts:205-211 | a repeated creation replaces the list by a complete read and leaves it otherwise |
| IndexerLists.EntriesRightExactlyWhen | backend/src/services/streamIndexer.ts:161-232 | such entries are the chain's final amounts if and only if every milestone was edited since the last complete read or found then at its final amount |
| IndexerLists.ReadsAlongTheRunComeRight | backend/src/services/streamIndexer.ts:181-196 | milestone accounts read one by one, each at its own moment of the run, meet that condition |
| IndexerLists.LastReadComesRight | backend/src/services/streamIndexer.ts:181-211 | a creation delivered once more repairs the list when each of its reads finds the chain at some moment from the events delivered before it on, whatever earlier reads returned |
| IndexerLists.ListedReadsBack | backend/src/services/streamIndexer.ts:196-196 | a stored milestone list splits back into its decimal amounts |
| IndexerEvents.AmountsChangeOnlyWhereEdited | programs/unified-flow/src/lib.rs:644-645 | a run changes milestone amounts only at the indices its edits name |
| IndexerEvents.TxRowIdIsInjective | backend/src/services/transactionRecorder.ts:3-5 | row ids tell transactions and streams apart |
| IndexerExamples.SharedTransactionLosesUnlock | backend/src/services/streamIndexer.ts:319-347 | a created stream with one edit and one unlock: the row has the 3 unlocked tokens if and only if the two are in different transactions |
| IndexerExamples.FailedReadPadsTheList | backend/src/services/streamIndexer.ts:201-223 | the same stream after a read that stopped short: the row lists "0;5" where the chain has "3;5" |
| IndexerExamples.CancellationCountsTwice | backend/src/services/streamIndexer.ts:377-386 | a cancellation of 5 tokens delivered twice leaves a row that says 10 |
| IndexerRedelivery.UnlocksCountWhenFirstRecorded | backend/src/services/streamIndexer.ts:314-355 | for any deliveries in any order with any repeats and any events per transaction, the unlocked amount is the sum over the unlocks delivered with the row there and as the first of their transaction's events to be recorded |
| IndexerRedelivery.UnlocksCountOnceExactlyWhen | backend/src/services/streamIndexer.ts:314-355 | when each transaction unlocks one positive amount, the unlocked amount is the sum over the distinct transactions whose unlock was delivered while the row existed, if and only if every one of those unlocks counted; it is never more |
| IndexerRedelivery.UnlocksCountOnce | backend/src/services/streamIndexer.ts:314-355 | with one event per transaction and stream every one of them counts, whatever the delivery order and repeats |
| IndexerRedelivery.RowAndRecordsFollow | backend/src/services/transactionRecorder.ts:7-27 | a row exists exactly when its creation was delivered, and a transaction is recorded under the stream exactly when it was delivered with the row there |
| IndexerRedelivery.FirstRecordStays | backend/src/services/transactionRecorder.ts:14-26 | for any deliveries with any repeats, the record of a transaction tells of its first event recorded under the stream |
| IndexerColumns.RedeliveryIsHarmlessExactlyWhen | backend/src/services/streamIndexer.ts:205-505 | delivering an event a second time changes nothing, in any database, if and only if it is not the cancellation of a known stream that paid the recipient something nor an edit of a known stream's milestone to another amount |
| IndexerColumns.RepeatedCreationEffect | backend/src/services/streamIndexer.ts:205-211 | a creation of a known stream leaves all other rows alone and every column of its own but the milestone list, which becomes what was read when every account was, and stays otherwise |
| IndexerColumns.FirstCreationEffect | backend/src/services/streamIndexer.ts:212-232 | a creation of an unknown stream adds its row as announced, with nothing withdrawn or unlocked, active and not completed |
| IndexerColumns.ClaimEffect | backend/src/services/streamIndexer.ts:262-274 | a claim overwrites the withdrawn column and recomputes the status from the total, in its row alone |
| IndexerColumns.UnlockEffect | backend/src/services/streamIndexer.ts:322-341 | an unlock not seen before adds its amount and completes the row at its time once that reaches the total; one seen before changes no row |
| IndexerColumns.CancelEffect | backend/src/services/streamIndexer.ts:377-386 | a cancellation adds what it paid the recipient and cancels the row, in its row alone |
| IndexerColumns.MilestoneEditEffect | backend/src/services/streamIndexer.ts:418-434 | a milestone edit shifts the total by the difference and touches the list beside it, in its row alone |
| IndexerColumns.ScheduleEditEffect | backend/src/services/streamIndexer.ts:458-496 | linear and cliff edits overwrite exactly the columns they report |
| IndexerColumns.RecordEffect | backend/src/services/transactionRecorder.ts:3-27 | a delivery records its transaction under the stream when the row is known, under the bare signature otherwise; an existing record stays and no other changes |
| Indexer.StreamIndexer.constructor | backend/src/services/streamIndexer.ts:144-148 | starts from an empty database |
| Indexer.StreamIndexer.RecordTransaction | backend/src/services/transactionRecorder.ts:7-27 | the first record of a row wins and later ones change nothing |
| Indexer.StreamIndexer.FetchMilestones | backend/src/services/streamIndexer.ts:162-203 | the loop yields the joined list of all amounts, or nothing when one cannot be read |
| Indexer.StreamIndexer.HandleStreamCreated | backend/src/services/streamIndexer.ts:205-240 | whole database after a creation, first or repeated, as `IndexerColumns.FirstCreationEffect` and `RepeatedCreationEffect` pin it down |
| Indexer.StreamIndexer.HandleTokensClaimed | backend/src/services/streamIndexer.ts:258-287 | whole database after a claim, for known and unknown streams |
| Indexer.StreamIndexer.HandleMilestoneUnlocked | backend/src/services/streamIndexer.ts:314-355 | whole database after an unlock, seen before or not |
| Indexer.StreamIndexer.HandleStreamCancelled | backend/src/services/streamIndexer.ts:373-399 | whole database after a cancellation |
| Indexer.StreamIndexer.HandleMilestoneEdited | backend/src/services/streamIndexer.ts:416-443 | whole database after a milestone edit, with the padding loop proved against its function |
| Indexer.StreamIndexer.HandleLinearEdited | backend/src/services/streamIndexer.ts:456-474 | whole database after a linear edit |
| Indexer.StreamIndexer.HandleCliffEdited | backend/src/services/streamIndexer.ts:487-504 | whole database after a cliff edit |
| Indexer.StreamIndexer.ProcessLog | backend/src/services/streamIndexer.ts:150-505 | a log of any deliveries leaves the database that the delivery semantics says, so the theorems about it apply |
| CsvRecords.SharesAddUpExactlyWhen | backend/src/services/csvDiff.ts:105-120 | the split adds up exactly for every non-negative total, and for a negative one if and only if it divides evenly |
| CsvRecords.SharesAreEven | backend/src/services/csvDiff.ts:114-119 | shares never increase along the list and differ by at most one |
| CsvRecords.NormalizedMilestonesAddUpExactlyWhen | backend/src/services/csvDiff.ts:142-159 | every milestone row lists as many parts as were written, in text that splits back into them, and they add up to its amount if and only if the amount is not negative, or divides evenly, or the written parts add up to it |
| CsvMilestones.NegativeSplitFallsShort | backend/src/services/csvDiff.ts:105-120 | minus one token at six decimals written as "1;1;1": the listed parts add up to -1000002 base units instead of -1000000 |
| CsvMilestones.WrittenPartsReadBack | backend/src/services/csvDiff.ts:95-103 | a list written in base units is parsed back into the same parts |
| CsvMilestones.WrittenStreamNormalizesBack | backend/src/services/csvDiff.ts:135-207 | an indexed stream written down as a row in human amounts normalises to the very record the stream itself does |
| CsvRecords.DecimalPointReads | backend/src/services/csvDiff.ts:62-69 | a numeral with a decimal point reads as whole part plus fraction, under its sign |
| CsvRecords.BlankRowNormalizes | backend/src/services/csvDiff.ts:139-181 | absent fields become empty texts and zeros, and a row is cancelable unless it says otherwise |
| CsvRecords.WholeAmountsScaleExactly | backend/src/services/csvDiff.ts:130-133 | whole token amounts scale to base units without rounding |
| CsvRecords.AmountsRoundToNearest | backend/src/services/csvDiff.ts:130-133 | base units are the nearest whole number to the scaled amount, the higher one when two are equally near |
| CsvRecords.DecimalsResolve | backend/src/services/csvDiff.ts:542-545 | a listed mint has its own decimals; an unknown, blank or absent one has the fallback |
| CsvRecords.IdentityKeySurvivesSecondPass | backend/src/services/csvDiff.ts:685-687 | normalising a row again leaves its identity key alone |
| CsvRecords.SameIdentityExactlyWhen | backend/src/services/csvDiff.ts:234-242 | when no recipient or mint holds the separator, two identity keys are equal if and only if recipients agree up to case, and mints and types agree |
| CsvRecords.SecondPassScalesAgain | backend/src/services/csvDiff.ts:682-684 | normalising a row again multiplies its amount by 10^decimals once more |
| CsvSecondPass.NormalizedLists | backend/src/services/csvDiff.ts:142-159 | whatever its amount, a normalised milestone row lists parts that add up to it or an even split of it |
| CsvSecondPass.SecondPassIsHarmlessExactlyWhen | backend/src/services/csvDiff.ts:682-684 | amount and milestone text survive the second pass if and only if the mint has no decimals or the record is all zeros |
| CsvSecondPass.MilestonesNormalizedAgain | backend/src/services/csvDiff.ts:142-159 | the second pass rewrites a milestone list with every part multiplied by 10^decimals, or splits the scaled amount anew when the parts do not add up |
| CsvSecondPass.ExactMatchAgreesExactlyWhen | backend/src/services/csvDiff.ts:682-707 | for every CSV row and every reference whose recipient and mint hold as many key separators as the row's, an exact-key match agrees with the row if and only if the mint has no decimals or the row is all zeros |
| CsvSecondPass.SeparatorInMintConfusesKeys | backend/src/services/csvDiff.ts:222-231 | with a separator more in the mint of one, records of different amounts share one key |
| CsvSecondPass.SameExactKey | backend/src/services/csvDiff.ts:222-231 | records with equally many separators before the numbers and equal exact keys agree in recipient up to case, mint, type, amount, both durations, cancelability and trimmed milestones |
| CsvSecondPass.ExactKeyMatchesScaledAmount | backend/src/services/csvDiff.ts:682-707 | for any mint and amount, the stream a row matches by exact key holds 10^decimals times as many tokens and is reported as unchanged |
| CsvSecondPass.ExactKeyMatchesWrongAmount | backend/src/services/csvDiff.ts:682-707 | two tokens at six decimals: the stream of two million tokens is reported as unchanged |
| CsvDiff.DiffThenPatch | backend/src/services/csvDiff.ts:632-647 | applying the change list to the matched reference yields the row's four values and moves nothing else |
| CsvDiff.DifferencesAreListed | backend/src/services/csvDiff.ts:507-515 | a compared field differs if and only if the list holds it with both its values |
| CsvDiff.ListedAreDifferences | backend/src/services/csvDiff.ts:632-647 | the list holds nothing but real differences, each field at most once |
| CsvDiff.NoChangesExactlyWhenAgree | backend/src/services/csvDiff.ts:649-676 | the list is empty if and only if the four fields agree |
| CsvDiff.LeastUnused | backend/src/services/csvDiff.ts:622-627 | the least not-yet-consumed index whose key matches, and none only if there is none |
| CsvDiff.MatchesExactlyWhen | backend/src/services/csvDiff.ts:620-719 | a row with an id matches if and only if an unconsumed reference has that id; a row without one matches by exact key if and only if an unconsumed reference has that key, and by identity key if and only if none has the exact key and one has the identity key; the match is always the first such reference |
| CsvDiff.EditIsReported | backend/src/services/csvDiff.ts:649-763 | so an edited row is reported as modified and an unedited one as unchanged, against the first unconsumed reference with its id, or with its identity key when it has no id and none has its exact key |
| CsvDiff.ModifiedItemTells | backend/src/services/csvDiff.ts:650-749 | a modified item names the reference's stream, recipient and creator, and carries exactly the values its changes give the reference as a patch |
| CsvDiff.UnchangedItemTells | backend/src/services/csvDiff.ts:665-705 | an unchanged item lists the reference's own values |
| CsvDiff.SameUploadChangesNothing | backend/src/services/csvDiff.ts:620-677 | uploading streams with ids of their own just as they are modifies none and lists every one as unchanged |
| CsvDiff.WrittenStreamsAreUnchanged | backend/src/services/csvDiff.ts:547-677 | the same from the raw rows on: streams written down in human amounts and uploaded again are all reported unchanged |
| CsvDiff.RowReported | backend/src/services/csvDiff.ts:620-764 | in the final outcome every row carries the match found for it and appears as modified or unchanged according to its comparison |
| CsvDiff.EachReferenceOnce | backend/src/services/csvDiff.ts:560-578 | no reference is matched twice, and every consumed reference accounts for exactly one reported item |
| CsvDiff.ReportedCount | backend/src/services/csvDiff.ts:620-766 | modified plus unchanged items equal the references consumed, at most one per row and per reference |
| CsvDiff.BucketRefinesScan | backend/src/services/csvDiff.ts:577-578 | the first unused index of a key's bucket is what a plain scan finds |
| CsvDiff.BuildBuckets | backend/src/services/csvDiff.ts:558-575 | both maps list, for every key, all its positions in increasing order |
| CsvDiff.TakeFirstUnused | backend/src/services/csvDiff.ts:577-578 | the loop returns the first unused index of a bucket |
| CsvDiff.FindById | backend/src/services/csvDiff.ts:623-627 | the loop returns the least unused reference with that id |
| CsvDiff.MatchRow | backend/src/services/csvDiff.ts:621-717 | matching through the buckets equals the matching by plain scans that `CsvDiff.MatchesExactlyWhen` characterises |
| CsvDiff.ReportMatch | backend/src/services/csvDiff.ts:629-763 | one row's bookkeeping is the specified one |
| CsvDiff.ComputeEditDiff | backend/src/services/csvDiff.ts:530-767 | the bucketed edit-mode diff returns exactly what the scanning specification does |
| Text.SplitUndoesJoin | backend/src/services/csvDiff.ts:99-102 | splitting a joined list gives the parts back when no part holds the separator |
| Text.TrimDropsOnlySpaces | backend/src/services/csvDiff.ts:92-92 | trimming takes spaces off both ends and nothing else |
| Text.DecimalReadsBack | sdk/src/wsol-node.ts:109-109 | a printed natural reads back as itself |
| Text.IntTextIsInjective | sdk/src/wsol-node.ts:109-109 | different integers have different texts |
| TokenFormat.FormatIsExact | sdk/src/wsol-node.ts:105-125 | the printed numeral times 10^decimals is the amount, for all non-negative amounts and all decimals, in the shortest text that says so |
| TokenFormat.NegativePrintsExactlyWhen | sdk/src/wsol-node.ts:109-120 | a negative amount prints as its sign and magnitude if and only if it is a whole token or more, or has no decimals |
| TokenFormat.SmallNegativePrintsWrong | sdk/src/wsol-node.ts:115-120 | minus five hundredths print as "0.-5" |
| TokenFormat.FormatIsInjective | sdk/src/wsol-node.ts:105-125 | different amounts print differently, negative ones included |
| DashboardFormat.SeparatorsGroupByThree | frontend/src/components/dashboard/utils.ts:6-8 | on digits the separator expression groups by three from the right |
| DashboardFormat.SeparatorsComeOff | frontend/src/components/dashboard/utils.ts:6-8 | removing the commas gives back any comma-free text |
| DashboardFormat.DashboardGroups | frontend/src/components/dashboard/utils.ts:10-23 | a dashboard amount is its sign, the whole digits in threes, and the fraction |
| DashboardFormat.DashboardAgreesWithSdk | frontend/src/components/dashboard/utils.ts:10-23 | without commas the dashboard shows exactly what the SDK prints, after the sign |
| Sequences.UniqueKeepsValues | backend/src/services/rpc.ts:18-20 | deduplication keeps every value, once |
| Sequences.UniqueKeepsOrder | backend/src/services/rpc.ts:18-20 | the values kept are listed in the order in which they are first met |
| RpcFailover.RpcPool.constructor | backend/src/services/rpc.ts:99-103 | a pool over the distinct configured endpoints, the first one active |
| RpcFailover.RpcPool.WithFailover | backend/src/services/rpc.ts:131-173 | endpoints are tried in cyclic order from the active one up to the first success, which becomes active; the connections of those that failed are dropped; it throws the last error only when all have failed, and then the active one stays |
| RpcFailover.VisitsAreDistinct | backend/src/services/rpc.ts:137-138 | one round tries no position twice |
| RpcFailover.VisitsCoverAll | backend/src/services/rpc.ts:137-138 | one round reaches every position |
| RpcFailover.InterleavingKeepsOrder | backend/src/services/rpc.ts:131-151 | under any interleaving of asynchronous calls the active index stays in range and every call walks its own cyclic order |
| RpcFailover.CallTriesEachOnce | backend/src/services/rpc.ts:131-151 | after any interleaving on a fresh pool, a call has walked its cyclic order without trying an endpoint twice, and one that gave up has tried them all |
| RpcFailover.AttemptEffect | backend/src/services/rpc.ts:135-150 | each step moves its own call alone: it begins at the active endpoint, a failure takes it to the next position of its round or ends it when the round is over, a success ends it there |
| RpcFailover.RpcPool.BeginCall | backend/src/services/rpc.ts:135-141 | an asynchronous call up to its first await moves the pool as the step semantics says |
| RpcFailover.RpcPool.AttemptFailed | backend/src/services/rpc.ts:144-150 | a failed attempt drops its connection and moves on, or gives up, as the step semantics says |
| RpcFailover.RpcPool.AttemptSucceeded | backend/src/services/rpc.ts:141-143 | a successful attempt makes its endpoint active, as the step semantics says |
| RpcFailover.OnlySuccessMovesActive | backend/src/services/rpc.ts:141-147 | after any interleaving on a fresh pool the active index is in range, and a further step moves it only on success, to the endpoint that succeeded |
| TokenBalance.InterleavingKeepsOrder | frontend/src/lib/use-token-balance.ts:97-214 | the protocol invariant holds after every interleaving of mounts, fetches, settlements, resumptions and cleanups |
| TokenBalance.AtMostOneLoadPerKey | frontend/src/lib/use-token-balance.ts:113-128 | at most one load per key is ever outstanding |
| TokenBalance.JoinersShareTheLoad | frontend/src/lib/use-token-balance.ts:113-114 | requests for one key that await unfinished loads await the same one |
| TokenBalance.RequestsGetTheirOwnKey | frontend/src/lib/use-token-balance.ts:104-128 | what a request resumes with was returned by a load of its own key, cached or not |
| TokenBalance.AppliedIdsIncrease | frontend/src/lib/use-token-balance.ts:180-202 | the ids of requests whose results are applied strictly increase |
| TokenBalance.OnlyTheLatestShows | frontend/src/lib/use-token-balance.ts:192-202 | a superseded request changes nothing on screen; the latest one shows the balance, raw balance and decimals it was delivered, or the failure, and stops the spinner |
| TokenBalance.CacheAnswersExactlyWhen | frontend/src/lib/use-token-balance.ts:106-128 | a request is answered from the cache if and only if it is not forced and the entry is less than 15000 ms old; otherwise it awaits the load in flight, if any; a load starts if and only if neither applies |
| TokenBalance.SettlementEffect | frontend/src/lib/use-token-balance.ts:117-125 | a load that settles leaves the in-flight map; its success alone reaches the cache, with its time |
| TokenBalance.LoadedBalanceShows | frontend/src/lib/use-token-balance.ts:106-119 | after a load has succeeded, and short of a newer success for its key, every unforced request for the key within 15000 ms starts no load and shows the balance that was loaded, whatever happened in between |
| TokenBalance.RequestShows | frontend/src/lib/use-token-balance.ts:161-182 | a request keeps the figures, clears the error and starts the spinner; without a wallet everything is cleared, and an invalid mint is reported with the figures cleared |
| TokenBalance.MountAndCleanupShow | frontend/src/lib/use-token-balance.ts:151-157 | a new hook shows nothing and awaits nothing; a cleanup changes nothing on screen and moves the counter past what is awaited |
| TokenBalance.OtherHooksStay | frontend/src/lib/use-token-balance.ts:97-214 | no step changes another hook instance, and settling a load changes none |
| TokenBalance.SupersededForever | frontend/src/lib/use-token-balance.ts:180-214 | a request once superseded is never applied in any continuation |
| TokenBalance.StuckExactlyAfterCleanup | frontend/src/lib/use-token-balance.ts:202-214 | the spinner gets stuck exactly by a cleanup while loading, and only a further request of the hook frees it |
| TokenBalance.StuckStays | frontend/src/lib/use-token-balance.ts:161-167 | without a further request a stuck spinner stays through every continuation |
| TokenBalance.SpinnerCanStick | frontend/src/lib/use-token-balance.ts:202-214 | the concrete three steps that stick it |
| TokenBalance.BalanceService.FetchBalanceShared | frontend/src/lib/use-token-balance.ts:97-129 | the shared maps and the promise are those that `TokenBalance.CacheAnswersExactlyWhen` characterises |
| TokenBalance.BalanceService.FetchBalance | frontend/src/lib/use-token-balance.ts:159-191 | up to its await or early return the hook and the maps move as the step semantics says |
| TokenBalance.BalanceService.SettleLoad | frontend/src/lib/use-token-balance.ts:116-125 | settling drops the in-flight entry and fills the cache on success only |
| TokenBalance.BalanceService.Continue | frontend/src/lib/use-token-balance.ts:192-203 | after its await the hook moves as the step semantics says, and not on screen when superseded |
| TokenBalance.BalanceService.CleanUp | frontend/src/lib/use-token-balance.ts:211-213 | a cleanup supersedes the pending request, and sticks the spinner exactly when it was on |
| DocsSearch.BuildTermFreq | backend/src/services/docsSearch.ts:61-67 | one pass yields every token with its exact number of occurrences |
| DocsSearch.CountDocuments | backend/src/services/docsSearch.ts:110-115 | for every term, the number of chunks that contain it, and no other term |
| DocsSearch.BuildIndex | backend/src/services/docsSearch.ts:100-118 | the loops build the index of exactly the corpus and the skill chunks |
| DocsSearch.ScoreCountsEveryToken | backend/src/services/docsSearch.ts:160-166 | summing over the query's distinct terms with their counts is summing over all its tokens |
| DocsSearch.ScoresExactlyWhenShared | backend/src/services/docsSearch.ts:120-126 | a chunk's score is never negative, and positive if and only if it shares a token with the query |
| DocsSearch.SearchFindsExactlyTheMatches | backend/src/services/docsSearch.ts:158-172 | before the limit a search finds exactly the chunks that share a token with the query, in index order, each with the score the texts themselves give it |
| DocsSearch.RelevanceIsWeight | backend/src/services/docsSearch.ts:120-166 | computed from the texts alone, a score adds up, for every query token, its occurrences in the text times the square of its rarity among all texts |
| DocsSearch.RankedSorts | backend/src/services/docsSearch.ts:174-174 | the ranking is descending, a permutation of the results, and keeps ties in order |
| DocsSearch.AnswerIsTheTop | backend/src/services/docsSearch.ts:147-176 | the answer has the smaller of limit and number of matching chunks, or that number less the magnitude of a negative limit, or none; with the chunks left out it is all matching chunks in descending order, ties in index order, so none left out scores higher than one returned |
| DocsSearch.EmptySkillIsNone | backend/src/services/docsSearch.ts:102-102 | an empty skill document is searched like none |
| DocsSearch.DocsIndexCache.GetIndex | backend/src/services/docsSearch.ts:133-140 | the index returned is always a build of the text asked for, rebuilt exactly when none is cached or the text has changed |
| DocsSearch.DocsIndexCache.ScoreChunk | backend/src/services/docsSearch.ts:160-166 | the scoring loop computes the specified score |
| DocsSearch.DocsIndexCache.SearchDocs | backend/src/services/docsSearch.ts:147-176 | the answer depends on query, limit and skill text alone, whatever was cached |
| DocsSearch.DocsIndexCache.InvalidateDocsIndex | backend/src/services/docsSearch.ts:178-182 | the cache is emptied and stays sound |

## Left out

- Accounts as the runtime sees them: address derivation, bumps, rent, allocation and serialisation; the signer and mint
  constraints are kept as guards, and which of several failing account constraints is reported first is not claimed.
- Token and system program calls beyond moving balances; the lamports paid for milestone accounts; the fee vault's side of
  the fee and its withdrawal.
- Pause switch, configuration and allow-list administration; pause and allow-list appear as inputs.
- Deposits into a vault from outside the program.
- Indexer delivery: subscription, heartbeat, backoff, malformed events and the database client; each handler is one
  atomic step. Columns copied unchanged at creation (parties, mint, vault, nonce) are not in the row.
- Runs in which other events than creations are repeated or arrive out of order: of these only unlocks, records and
  immediate repeats are claimed.
- `backend/src/services/backfill.ts`, which walks signatures from newest to oldest.
- Create mode of the diff, the random row ids and the unused match keys; CSV parsing and validation.
- CsvRecords.NormalizedMilestonesAddUpExactlyWhen: amounts written in text are plain decimals over exact reals; exponent notation,
  JavaScript rounding beyond 2^53, Unicode white space and non-ASCII case folding are not modelled.
- CsvRecords.WholeAmountsScaleExactly: exact reals stand for JavaScript numbers.
- CsvSecondPass.ExactMatchAgreesExactlyWhen: says nothing about matches between a row and a reference whose recipients
  and mints hold different numbers of the key separator.
- CsvDiff.RowReported: on the exact-key path it states consumption and reporting, not that the fields agree, because the
  key is computed from a row scaled twice.
- TokenFormat.FormatIsExact: states exactness for non-negative amounts; for negative ones it is false below one token,
  and TokenFormat.NegativePrintsExactlyWhen says where it holds.
- RpcFailover.RpcPool.WithFailover: the callback's outcome is a function of the endpoint, which loses nothing because
  one call tries no endpoint twice; web-socket endpoints, the cluster choice and the proxy around the pool are not modelled.
- DocsSearch.SearchFindsExactlyTheMatches: scores are exact reals; logarithm and square root are arbitrary functions of
  which only signs are used, and the tokenizer and the splitting of the skill document are arbitrary functions.
- The balance hook's connections, the load itself and the refresh timer: a load is a step that succeeds with any balance
  or fails, at any time.
- The top-up arithmetic of `buildWsolWrapInstructions` and the padding of `getMilestoneAllocations`.
- Wallet, command line, chat and rendering code.
