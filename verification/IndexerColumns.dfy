/** What each event changes in the database, column by column, and what delivering it a second time changes. */
module IndexerColumns {
  import opened Results
  import opened Accounts
  import opened Text
  import opened Indexer

  /** Equal in every column but the milestone list, which a repeated creation may have read again. */
  predicate SameButList(a: Row, b: Row) {
    a.(milestones := b.milestones) == b
  }

  /** No row but that of `id` changes, and none is added. */
  predicate OnlyRow(db: Database, db': Database, id: string) {
    db'.rows.Keys == db.rows.Keys && forall k :: k in db.rows && k != id ==> db'.rows[k] == db.rows[k]
  }

  /**
   A creation of a known stream leaves every other row alone, and its own row in every column but the milestone list,
   which becomes what was read if every account could be, and stays otherwise.
   */
  lemma RepeatedCreationEffect(db: Database, d: Delivery)
    requires d.event.StreamCreated? && d.streamId in db.rows
    ensures var rows := Handle(db, d).rows;
            && rows.Keys == db.rows.Keys
            && (forall id :: id in db.rows && id != d.streamId ==> rows[id] == db.rows[id])
            && SameButList(rows[d.streamId], db.rows[d.streamId])
            && rows[d.streamId].milestones == if 0 < d.event.milestoneCount <= |d.readable|
                                              then Listed(d.readable[..d.event.milestoneCount])
                                              else db.rows[d.streamId].milestones
  {
    var count := d.event.milestoneCount;
    if 0 < count <= |d.readable| {
      JoinIsNotEmpty(Decimals(d.readable[..count]), ';');
    }
  }

  /** A creation of an unknown stream adds its row, as announced and untouched, and no other. */
  lemma FirstCreationEffect(db: Database, d: Delivery)
    requires d.event.StreamCreated? && d.streamId !in db.rows
    ensures var rows := Handle(db, d).rows;
            && rows.Keys == db.rows.Keys + {d.streamId}
            && (forall id :: id in db.rows ==> rows[id] == db.rows[id])
            && var row, ev := rows[d.streamId], d.event;
               && (row.totalAmount, row.startTs, row.cliffTs, row.endTs, row.milestoneCount)
                  == (ev.totalAmount, ev.startTs, ev.cliffTs, ev.endTs, ev.milestoneCount)
               && (row.withdrawn, row.unlockedAmount, row.status, row.completedAt) == (0, 0, 1, None)
               && row.milestones == if 0 < ev.milestoneCount <= |d.readable|
                                    then Listed(d.readable[..ev.milestoneCount]) else ""
  {
  }

  /** A claim overwrites the withdrawn column, and the status by whether that reaches the total. */
  lemma ClaimEffect(db: Database, d: Delivery)
    requires d.event.TokensClaimed? && d.streamId in db.rows
    ensures OnlyRow(db, Handle(db, d), d.streamId)
    ensures var row, row' := db.rows[d.streamId], Handle(db, d).rows[d.streamId];
            && row'.withdrawn == d.event.withdrawnTotal
            && row'.status == (if row'.withdrawn < row.totalAmount then 1 else 2)
            && row' == row.(withdrawn := row'.withdrawn, status := row'.status)
  {
  }

  /** An unlock not seen before adds its amount, and completes the row at its time once that reaches the total. */
  lemma UnlockEffect(db: Database, d: Delivery)
    requires d.event.MilestoneUnlocked? && d.streamId in db.rows
    ensures OnlyRow(db, Handle(db, d), d.streamId)
    ensures var row, row' := db.rows[d.streamId], Handle(db, d).rows[d.streamId];
            if AlreadySeen(db, d) then row' == row
            else && row'.unlockedAmount == row.unlockedAmount + d.event.amount
                 && (if row'.unlockedAmount >= row.totalAmount
                     then row'.status == 2 && row'.completedAt == Some(d.event.unlockTs)
                     else row'.status == row.status && row'.completedAt == row.completedAt)
                 && row' == row.(unlockedAmount := row'.unlockedAmount, status := row'.status,
                                 completedAt := row'.completedAt)
  {
  }

  /** A cancellation adds what it paid the recipient, and cancels the row. */
  lemma CancelEffect(db: Database, d: Delivery)
    requires d.event.StreamCancelled? && d.streamId in db.rows
    ensures OnlyRow(db, Handle(db, d), d.streamId)
    ensures var row, row' := db.rows[d.streamId], Handle(db, d).rows[d.streamId];
            && row'.withdrawn == row.withdrawn + d.event.claimableForRecipient && row'.status == 3
            && row' == row.(withdrawn := row'.withdrawn, status := row'.status)
  {
  }

  /** A milestone edit shifts the total by the difference and rewrites the list. */
  lemma MilestoneEditEffect(db: Database, d: Delivery)
    requires d.event.MilestoneEdited? && d.streamId in db.rows
    ensures OnlyRow(db, Handle(db, d), d.streamId)
    ensures var row, row' := db.rows[d.streamId], Handle(db, d).rows[d.streamId];
            && row'.totalAmount == row.totalAmount + d.event.newAmount - d.event.oldAmount
            && row' == row.(totalAmount := row'.totalAmount, milestones := row'.milestones)
  {
  }

  /** Linear and cliff edits overwrite the columns they report. */
  lemma ScheduleEditEffect(db: Database, d: Delivery)
    requires (d.event.LinearEdited? || d.event.CliffEdited?) && d.streamId in db.rows
    ensures OnlyRow(db, Handle(db, d), d.streamId)
    ensures var row, row' := db.rows[d.streamId], Handle(db, d).rows[d.streamId];
            && row' == row.(endTs := row'.endTs, totalAmount := row'.totalAmount, cliffTs := row'.cliffTs)
            && (d.event.LinearEdited? ==> (row'.endTs, row'.totalAmount, row'.cliffTs)
                                          == (d.event.newEndTs, d.event.newTotalAmount, row.cliffTs))
            && (d.event.CliffEdited? ==> (row'.endTs, row'.totalAmount, row'.cliffTs)
                                         == (row.endTs, row.totalAmount, d.event.newCliffTs))
  {
  }

  /** An event of an unknown stream changes no row. */
  lemma UnknownStreamEffect(db: Database, d: Delivery)
    requires !d.event.StreamCreated? && d.streamId !in db.rows
    ensures Handle(db, d).rows == db.rows
  {
  }

  /** What a delivery leaves in the table of transactions: the first record of a row stays, and no other row changes. */
  lemma RecordEffect(db: Database, d: Delivery)
    ensures var known := d.event.StreamCreated? || d.streamId in db.rows;
            var id := if known && d.streamId != "" then d.signature + ":" + d.streamId else d.signature;
            var txs, txs' := db.transactions, Handle(db, d).transactions;
            && txs'.Keys == txs.Keys + {id}
            && (forall k :: k in txs ==> txs'[k] == txs[k])
            && (id !in txs ==> txs'[id] == TxRow(d.signature, if known then Some(d.streamId) else None,
                                                 TransactionKind(d.event)))
  {
  }

  /** The name under which each event is recorded. */
  lemma KindsAreNamed(event: Event)
    ensures TransactionKind(event) ==
            if event.StreamCreated? then "CREATE_STREAM" else if event.TokensClaimed? then "WITHDRAW"
            else if event.MilestoneUnlocked? then "MILESTONE_UNLOCKED" else if event.StreamCancelled? then "CANCEL"
            else if event.MilestoneEdited? then "MILESTONE_EDITED" else if event.LinearEdited? then "LINEAR_EDITED"
            else "CLIFF_EDITED"
  {
  }

  // The same delivery twice in a row.

  lemma {:induction false} SplitIsFree(s: string, sep: char)
    ensures AllFree(Split(s, sep), sep)
    decreases |s|
  {
    if s != "" {
      SplitIsFree(s[1..], sep);
    }
  }

  lemma {:induction false} JoinedPartsAreNotEmpty(parts: seq<string>, index: nat)
    requires index < |parts| && parts[index] != ""
    ensures Join(parts, ';') != ""
  {
    if parts[0] != "" {
      JoinIsNotEmpty(parts, ';');
    }
  }

  /** Writing the same entry again leaves the list as it is. */
  lemma {:induction false} EditedListStays(text: string, index: nat, numeral: string)
    requires numeral != "" && Free(numeral, ';')
    ensures var once := Join(PaddedParts(text, index)[index := numeral], ';');
            Join(PaddedParts(once, index)[index := numeral], ';') == once
  {
    var parts := PaddedParts(text, index)[index := numeral];
    SplitIsFree(text, ';');
    assert AllFree(parts, ';');
    JoinedPartsAreNotEmpty(parts, index);
    SplitUndoesJoin(parts, ';');
    assert PaddedParts(Join(parts, ';'), index) == parts;
    assert parts[index := numeral] == parts;
  }

  /** The events whose handlers add to a column without a guard. */
  predicate AddsAgain(event: Event) {
    || (event.StreamCancelled? && event.claimableForRecipient > 0)
    || (event.MilestoneEdited? && event.oldAmount != event.newAmount)
  }

  lemma {:induction false} EditAppliedTwice(row: Row, event: Event)
    requires event.MilestoneEdited?
    ensures RowAfter(RowAfter(row, event), event) == RowAfter(row, event) <==> event.oldAmount == event.newAmount
  {
    assert Free(Decimal(event.newAmount), ';');
    EditedListStays(row.milestones, event.index, Decimal(event.newAmount));
  }

  lemma {:induction false} RowAppliedTwice(row: Row, event: Event)
    requires !event.StreamCreated? && !event.MilestoneUnlocked?
    ensures RowAfter(RowAfter(row, event), event) == RowAfter(row, event) <==> !AddsAgain(event)
  {
    if event.MilestoneEdited? {
      EditAppliedTwice(row, event);
    }
  }

  lemma RecordedOnce(db: Database, d: Delivery)
    ensures Handle(Handle(db, d), d).transactions == Handle(db, d).transactions
  {
  }

  lemma CreationHandledTwice(db: Database, d: Delivery)
    requires d.event.StreamCreated?
    ensures Handle(Handle(db, d), d).rows == Handle(db, d).rows
  {
  }

  lemma UnlockHandledTwice(db: Database, d: Delivery)
    requires d.event.MilestoneUnlocked?
    ensures Handle(Handle(db, d), d).rows == Handle(db, d).rows
  {
  }

  lemma {:induction false} OthersHandledTwice(db: Database, d: Delivery)
    requires !d.event.StreamCreated? && !d.event.MilestoneUnlocked?
    ensures Handle(Handle(db, d), d).rows == Handle(db, d).rows <==> !(d.streamId in db.rows && AddsAgain(d.event))
  {
    var db' := Handle(db, d);
    if d.streamId in db.rows {
      RowAppliedTwice(db.rows[d.streamId], d.event);
      assert Handle(db', d).rows == db'.rows[d.streamId := RowAfter(db'.rows[d.streamId], d.event)];
    }
  }

  /**
   Delivering an event a second time changes nothing at all, whatever the database, if and only if it is not the
   cancellation of a known stream that paid the recipient something, nor the edit of a known stream's milestone to
   another amount.
   */
  lemma {:induction false} RedeliveryIsHarmlessExactlyWhen(db: Database, d: Delivery)
    ensures Handle(Handle(db, d), d) == Handle(db, d) <==> !(d.streamId in db.rows && AddsAgain(d.event))
  {
    RecordedOnce(db, d);
    match d.event
    case StreamCreated(_, _, _, _, _, _) => CreationHandledTwice(db, d);
    case MilestoneUnlocked(_, _, _) => UnlockHandledTwice(db, d);
    case _ => OthersHandledTwice(db, d);
  }
}
