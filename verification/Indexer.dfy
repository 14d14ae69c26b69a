/** The indexer: program events folded into one database row per stream, plus the table of seen transactions. */
module Indexer {
  import opened Numbers
  import opened Results
  import opened Accounts
  import opened Text

  const ACTIVE: nat := 1
  const COMPLETED: nat := 2
  const CANCELLED: nat := 3

  datatype Row = Row(
    totalAmount: int,
    withdrawn: int,
    startTs: int,
    cliffTs: int,
    endTs: int,
    completedAt: Option<int>,
    status: nat,
    milestoneCount: nat,
    milestones: string,
    unlockedAmount: int)

  datatype TxRow = TxRow(signature: string, streamId: Option<string>, kind: string)

  datatype Database = Database(rows: map<string, Row>, transactions: map<string, TxRow>)

  /**
   One event of one transaction, as the indexer receives it. `readable` is what its handler finds when it reads the
   stream's milestone accounts, up to the first that cannot be read.
   */
  datatype Delivery = Delivery(signature: string, streamId: string, event: Event, readable: seq<u64>)

  // transactionRecorder.ts

  function TxRowId(signature: string, streamId: Option<string>): string {
    if streamId.Some? && streamId.value != "" then signature + ":" + streamId.value else signature
  }

  /** The first record of a transaction row wins. */
  function Recorded(txs: map<string, TxRow>, signature: string, streamId: Option<string>, kind: string)
    : map<string, TxRow>
  {
    var id := TxRowId(signature, streamId);
    if id in txs then txs else txs[id := TxRow(signature, streamId, kind)]
  }

  // Milestone lists.

  function Decimals(amounts: seq<u64>): (r: seq<string>)
    ensures |r| == |amounts| && forall i :: 0 <= i < |amounts| ==> r[i] == Decimal(amounts[i])
  {
    seq(|amounts|, i requires 0 <= i < |amounts| => Decimal(amounts[i]))
  }

  function Listed(amounts: seq<u64>): string {
    Join(Decimals(amounts), ';')
  }

  /** The stored list read back, padded with "0" up to `index`. */
  function PaddedParts(milestones: string, index: nat): (parts: seq<string>)
    ensures |parts| > index
  {
    var parts := if milestones == "" then [] else Split(milestones, ';');
    if |parts| > index then parts else parts + seq(index + 1 - |parts|, _ => "0")
  }

  // The handlers, as functions from the database before to the database after.

  function FetchedList(count: nat, readable: seq<u64>): string {
    if 0 < count <= |readable| then Listed(readable[..count]) else ""
  }

  function AfterStreamCreated(db: Database, d: Delivery): Database
    requires d.event.StreamCreated?
  {
    var ev := d.event;
    var fetched := FetchedList(ev.milestoneCount, d.readable);
    var row :=
      if d.streamId in db.rows then
        if fetched != "" then db.rows[d.streamId].(milestones := fetched) else db.rows[d.streamId]
      else
        Row(ev.totalAmount, 0, ev.startTs, ev.cliffTs, ev.endTs, None, ACTIVE, ev.milestoneCount, fetched, 0);
    Database(db.rows[d.streamId := row],
             Recorded(db.transactions, d.signature, Some(d.streamId), "CREATE_STREAM"))
  }

  function KnownId(db: Database, streamId: string): Option<string> {
    if streamId in db.rows then Some(streamId) else None
  }

  function ClaimedRow(row: Row, withdrawnTotal: int): Row {
    row.(withdrawn := withdrawnTotal, status := if withdrawnTotal >= row.totalAmount then COMPLETED else ACTIVE)
  }

  function UnlockedRow(row: Row, amount: int, unlockTs: int): Row {
    var unlocked := row.unlockedAmount + amount;
    var completed := unlocked >= row.totalAmount;
    row.(unlockedAmount := unlocked,
         status := if completed then COMPLETED else row.status,
         completedAt := if completed then Some(unlockTs) else row.completedAt)
  }

  function CancelledRow(row: Row, claimable: int): Row {
    row.(withdrawn := row.withdrawn + claimable, status := CANCELLED)
  }

  function MilestoneEditedRow(row: Row, index: nat, oldAmount: u64, newAmount: u64): Row {
    var parts := PaddedParts(row.milestones, index);
    row.(totalAmount := row.totalAmount + (newAmount - oldAmount),
         milestones := Join(parts[index := Decimal(newAmount)], ';'))
  }

  function LinearEditedRow(row: Row, newEndTs: int, newTotalAmount: int): Row {
    row.(endTs := newEndTs, totalAmount := newTotalAmount)
  }

  function CliffEditedRow(row: Row, newCliffTs: int): Row {
    row.(cliffTs := newCliffTs)
  }

  /** What an event that follows creation does to its stream's row. */
  function RowAfter(row: Row, event: Event): Row
    requires !event.StreamCreated?
  {
    match event
    case TokensClaimed(_, _, total) => ClaimedRow(row, total)
    case MilestoneUnlocked(_, amount, unlockTs) => UnlockedRow(row, amount, unlockTs)
    case StreamCancelled(_, _, claimable) => CancelledRow(row, claimable)
    case MilestoneEdited(index, oldAmount, newAmount) => MilestoneEditedRow(row, index, oldAmount, newAmount)
    case LinearEdited(_, newEndTs, _, newTotal) => LinearEditedRow(row, newEndTs, newTotal)
    case CliffEdited(_, newCliffTs) => CliffEditedRow(row, newCliffTs)
  }

  function TransactionKind(event: Event): string {
    match event
    case StreamCreated(_, _, _, _, _, _) => "CREATE_STREAM"
    case TokensClaimed(_, _, _) => "WITHDRAW"
    case MilestoneUnlocked(_, _, _) => "MILESTONE_UNLOCKED"
    case StreamCancelled(_, _, _) => "CANCEL"
    case MilestoneEdited(_, _, _) => "MILESTONE_EDITED"
    case LinearEdited(_, _, _, _) => "LINEAR_EDITED"
    case CliffEdited(_, _) => "CLIFF_EDITED"
  }

  /** An unlock whose transaction row exists already. */
  predicate AlreadySeen(db: Database, d: Delivery) {
    d.event.MilestoneUnlocked? && TxRowId(d.signature, Some(d.streamId)) in db.transactions
  }

  /**
   The row, when there is one, follows the event unless it is an unlock already seen; the transaction is recorded
   either way.
   */
  function Handle(db: Database, d: Delivery): Database {
    if d.event.StreamCreated? then AfterStreamCreated(db, d)
    else
      var rows :=
        if d.streamId in db.rows && !AlreadySeen(db, d)
        then db.rows[d.streamId := RowAfter(db.rows[d.streamId], d.event)]
        else db.rows;
      Database(rows, Recorded(db.transactions, d.signature, KnownId(db, d.streamId), TransactionKind(d.event)))
  }

  function Deliver(db: Database, ds: seq<Delivery>): Database
    decreases |ds|
  {
    if ds == [] then db else Deliver(Handle(db, ds[0]), ds[1..])
  }

  /** The service itself: tables that the handlers read and update. */
  class StreamIndexer {
    var rows: map<string, Row>
    var transactions: map<string, TxRow>

    function Db(): Database
      reads this
    {
      Database(rows, transactions)
    }

    constructor ()
      ensures Db() == Database(map[], map[])
    {
      rows, transactions := map[], map[];
    }

    method RecordTransaction(signature: string, streamId: Option<string>, kind: string)
      modifies this`transactions
      ensures transactions == Recorded(old(transactions), signature, streamId, kind)
    {
      var id := TxRowId(signature, streamId);
      if id !in transactions {
        transactions := transactions[id := TxRow(signature, streamId, kind)];
      }
    }

    /** Reads the milestone accounts one by one; an unreadable one discards the whole list. */
    static method FetchMilestones(count: nat, readable: seq<u64>) returns (list: string)
      ensures list == FetchedList(count, readable)
    {
      var amounts: seq<string> := [];
      for i := 0 to count
        invariant i <= |readable|
        invariant amounts == Decimals(readable[..i])
      {
        if i >= |readable| {
          return "";
        }
        amounts := amounts + [Decimal(readable[i])];
      }
      list := Join(amounts, ';');
    }

    method HandleStreamCreated(d: Delivery)
      requires d.event.StreamCreated?
      modifies this
      ensures Db() == Handle(old(Db()), d)
    {
      var ev := d.event;
      var list := FetchMilestones(ev.milestoneCount, d.readable);
      if d.streamId in rows {
        if list != "" {
          rows := rows[d.streamId := rows[d.streamId].(milestones := list)];
        }
      } else {
        var row := Row(ev.totalAmount, 0, ev.startTs, ev.cliffTs, ev.endTs, None, ACTIVE, ev.milestoneCount, list, 0);
        rows := rows[d.streamId := row];
      }
      RecordTransaction(d.signature, Some(d.streamId), "CREATE_STREAM");
    }

    method HandleTokensClaimed(d: Delivery)
      requires d.event.TokensClaimed?
      modifies this
      ensures Db() == Handle(old(Db()), d)
    {
      var known := KnownId(Db(), d.streamId);
      if d.streamId in rows {
        var newStatus := ACTIVE;
        if d.event.withdrawnTotal >= rows[d.streamId].totalAmount {
          newStatus := COMPLETED;
        }
        rows := rows[d.streamId := rows[d.streamId].(withdrawn := d.event.withdrawnTotal, status := newStatus)];
      }
      RecordTransaction(d.signature, known, "WITHDRAW");
    }

    method HandleMilestoneUnlocked(d: Delivery)
      requires d.event.MilestoneUnlocked?
      modifies this
      ensures Db() == Handle(old(Db()), d)
    {
      var known := KnownId(Db(), d.streamId);
      if TxRowId(d.signature, Some(d.streamId)) !in transactions {
        if d.streamId in rows {
          var row := rows[d.streamId];
          var updated := row.unlockedAmount + d.event.amount;
          var completed := updated >= row.totalAmount;
          rows := rows[d.streamId := row.(
            unlockedAmount := updated,
            status := if completed then COMPLETED else row.status,
            completedAt := if completed then Some(d.event.unlockTs) else row.completedAt)];
        }
      }
      RecordTransaction(d.signature, known, "MILESTONE_UNLOCKED");
    }

    method HandleStreamCancelled(d: Delivery)
      requires d.event.StreamCancelled?
      modifies this
      ensures Db() == Handle(old(Db()), d)
    {
      var known := KnownId(Db(), d.streamId);
      if d.streamId in rows {
        var row := rows[d.streamId];
        var nextWithdrawn := row.withdrawn + d.event.claimableForRecipient;
        rows := rows[d.streamId := row.(withdrawn := nextWithdrawn, status := CANCELLED)];
      }
      RecordTransaction(d.signature, known, "CANCEL");
    }

    method HandleMilestoneEdited(d: Delivery)
      requires d.event.MilestoneEdited?
      modifies this
      ensures Db() == Handle(old(Db()), d)
    {
      var known := KnownId(Db(), d.streamId);
      if d.streamId in rows {
        var row := rows[d.streamId];
        var diff := d.event.newAmount - d.event.oldAmount;
        var stored := if row.milestones == "" then [] else Split(row.milestones, ';');
        var parts := stored;
        while |parts| <= d.event.index
          invariant |stored| <= |parts|
          invariant parts == stored + seq(|parts| - |stored|, _ => "0")
          invariant |parts| <= if |stored| > d.event.index then |stored| else d.event.index + 1
          decreases d.event.index + 1 - |parts|
        {
          parts := parts + ["0"];
        }
        assert parts == PaddedParts(row.milestones, d.event.index);
        parts := parts[d.event.index := Decimal(d.event.newAmount)];
        rows := rows[d.streamId := row.(totalAmount := row.totalAmount + diff, milestones := Join(parts, ';'))];
      }
      RecordTransaction(d.signature, known, "MILESTONE_EDITED");
    }

    method HandleLinearEdited(d: Delivery)
      requires d.event.LinearEdited?
      modifies this
      ensures Db() == Handle(old(Db()), d)
    {
      var known := KnownId(Db(), d.streamId);
      if d.streamId in rows {
        rows := rows[d.streamId :=
          rows[d.streamId].(endTs := d.event.newEndTs, totalAmount := d.event.newTotalAmount)];
      }
      RecordTransaction(d.signature, known, "LINEAR_EDITED");
    }

    method HandleCliffEdited(d: Delivery)
      requires d.event.CliffEdited?
      modifies this
      ensures Db() == Handle(old(Db()), d)
    {
      var known := KnownId(Db(), d.streamId);
      if d.streamId in rows {
        rows := rows[d.streamId := rows[d.streamId].(cliffTs := d.event.newCliffTs)];
      }
      RecordTransaction(d.signature, known, "CLIFF_EDITED");
    }

    method ProcessEvent(d: Delivery)
      modifies this
      ensures Db() == Handle(old(Db()), d)
    {
      match d.event {
        case StreamCreated(_, _, _, _, _, _) => HandleStreamCreated(d);
        case TokensClaimed(_, _, _) => HandleTokensClaimed(d);
        case MilestoneUnlocked(_, _, _) => HandleMilestoneUnlocked(d);
        case StreamCancelled(_, _, _) => HandleStreamCancelled(d);
        case MilestoneEdited(_, _, _) => HandleMilestoneEdited(d);
        case LinearEdited(_, _, _, _) => HandleLinearEdited(d);
        case CliffEdited(_, _) => HandleCliffEdited(d);
      }
    }

    /** The events of a transaction, one handler after the other. */
    method ProcessLog(ds: seq<Delivery>)
      modifies this
      ensures Db() == Deliver(old(Db()), ds)
    {
      for i := 0 to |ds|
        invariant Deliver(old(Db()), ds) == Deliver(Db(), ds[i..])
      {
        assert ds[i..][1..] == ds[i + 1..];
        ProcessEvent(ds[i]);
      }
    }
  }
}
