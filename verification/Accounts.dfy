/** The accounts, errors and events of the streaming program, as values. */
module Accounts {
  import opened Numbers
  import opened Results

  type Key = string

  datatype VestingType = Linear | Cliff | MilestoneBased

  datatype Status = Active | Completed | Cancelled

  /** Errors the program names, then the ones raised by the runtime and the token program. */
  datatype ErrorCode =
    | InvalidAmount
    | InvalidSchedule
    | InvalidCliff
    | InvalidEndDate
    | InvalidStartDate
    | DurationTooShort
    | MathOverflow
    | InvalidRecipient
    | InvalidMint
    | InvalidTokenOwner
    | InsufficientBalance
    | MintNotAllowed
    | ProtocolPaused
    | InvalidMintDecimals
    | TransferFeeMintUnsupported
    | StreamNotActive
    | StreamNotCancelable
    | NothingToWithdraw
    | Unauthorized
    | InvalidOracleFeed
    | StaleOraclePrice
    | InvalidOraclePrice
    | AlreadyCancelled
    | FullyVested
    | StreamExpired
    | MilestoneAlreadyUnlocked
    | InvalidVestingType
    | InvalidMilestoneCount
    | InvalidMilestonePda
    | InvalidMilestoneAmount
    | InvalidMilestoneOrder
    | StreamAlreadyStarted
    | AccountNotInitialized
    | ConstraintSeeds
    | TokenTransferFailed
    | LamportTransferFailed

  datatype Milestone = Milestone(amount: u64, approved: bool, unlocked: bool, unlockTs: i64)

  /** A stream account together with the milestone accounts that belong to it. */
  datatype Stream = Stream(
    creator: Key,
    recipient: Key,
    mint: Key,
    kind: VestingType,
    status: Status,
    cancelable: bool,
    cancelled: bool,
    totalAmount: u64,
    withdrawn: u64,
    startTs: i64,
    cliffTs: i64,
    endTs: i64,
    nextMilestone: u8,
    unlockedAmount: u64,
    milestones: seq<Milestone>)

  function Amounts(ms: seq<Milestone>): (r: seq<u64>)
    ensures |r| == |ms| && forall i :: 0 <= i < |ms| ==> r[i] == ms[i].amount
  {
    seq(|ms|, i requires 0 <= i < |ms| => ms[i].amount)
  }

  datatype Event =
    | StreamCreated(kind: VestingType, totalAmount: u64, startTs: i64, cliffTs: i64, endTs: i64,
                    milestoneCount: u8)
    | TokensClaimed(claimable: u64, feeLamports: u64, withdrawnTotal: u64)
    | MilestoneUnlocked(index: u8, amount: u64, unlockTs: i64)
    | StreamCancelled(vestedAmount: u64, returnedToCreator: u64, claimableForRecipient: u64)
    | MilestoneEdited(index: u8, oldAmount: u64, newAmount: u64)
    | LinearEdited(oldEndTs: i64, newEndTs: i64, oldTotalAmount: u64, newTotalAmount: u64)
    | CliffEdited(oldCliffTs: i64, newCliffTs: i64)

  // Checked arithmetic: `checked_*(..).ok_or(MathOverflow)`.

  function CheckedU64(x: int): Result<u64, ErrorCode> {
    if 0 <= x < TWO_64 then Ok(x) else Err(MathOverflow)
  }

  function CheckedI64(x: int): Result<i64, ErrorCode> {
    if -TWO_63 <= x < TWO_63 then Ok(x) else Err(MathOverflow)
  }

  function CheckedU128(x: int): Result<u128, ErrorCode> {
    if 0 <= x < TWO_128 then Ok(x) else Err(MathOverflow)
  }

  function CheckedDivU128(a: u128, b: u128): Result<u128, ErrorCode> {
    if b == 0 then Err(MathOverflow) else CheckedU128(a / b)
  }
}
