/** A stream whose row goes wrong twice: an unlock lost to its transaction, and a list padded after a failed read. */
module IndexerExamples {
  import opened Numbers
  import opened Results
  import opened Accounts
  import opened Text
  import opened Program
  import opened PayoutExamples
  import opened Indexer
  import opened IndexerColumns
  import opened IndexerEvents
  import opened IndexerRefinement

  const STREAM_ID: string := "stream"

  const CONTEXT: Context := At(0, ALICE)

  /** Two milestones, of 3 and 4 tokens. */
  const REQUEST: CreateRequest :=
    CreateRequest(BOB, 7, 0, 0, 0, VESTING_TYPE_MILESTONE, [3, 4], 2, true, [], 6, 7, 7)

  const CREATED: Stream :=
    Stream(ALICE, BOB, USDC, MilestoneBased, Active, true, false, 7, 0, 0, 0, 0, 0, 0,
           [Milestone(3, false, false, 0), Milestone(4, false, false, 0)])

  /** The second milestone raised to 5 tokens, and the first one unlocked. */
  const RAISE: Step := Step(CONTEXT, EditMilestone(1, 5, 1))
  const UNLOCK: Step := Step(CONTEXT, UnlockMilestone(0))

  const RAISED: Stream :=
    CREATED.(totalAmount := 8, milestones := [Milestone(3, false, false, 0), Milestone(5, false, false, 0)])

  const FINAL: Stream :=
    RAISED.(nextMilestone := 1, unlockedAmount := 3,
            milestones := [Milestone(3, true, true, 0), Milestone(5, false, false, 0)])

  lemma Created()
    ensures AfterCreate(CONTEXT, REQUEST)
            == Ok(Effect(Escrow(CREATED, Ledger(7, 7, 0, 0, 0)), StreamCreated(MilestoneBased, 7, 0, 0, 0, 2)))
  {
    assert REQUEST.milestones[1..] == [4] && [4][1..] == [];
    assert SumChecked([4], 3) == Ok(7);
    assert SumChecked([3, 4], 0) == Ok(7);
    assert ALICE[0] != BOB[0];
    assert Locked([3, 4]) == CREATED.milestones;
  }

  lemma RaisedThenUnlocked()
    ensures var e, f := Escrow(CREATED, Ledger(7, 7, 0, 0, 0)), Escrow(RAISED, Ledger(8, 8, 0, 0, 0));
            && Perform(e, RAISE) == Ok(Effect(f, MilestoneEdited(1, 4, 5)))
            && Perform(f, UNLOCK) == Ok(Effect(Escrow(FINAL, f.ledger), MilestoneUnlocked(0, 3, 0)))
  {
    assert CREATED.milestones[1 := Milestone(5, false, false, 0)] == RAISED.milestones;
    assert RAISED.milestones[0 := Milestone(3, true, true, 0)] == FINAL.milestones;
  }

  lemma {:induction false} WholeRun()
    ensures var e := Escrow(CREATED, Ledger(7, 7, 0, 0, 0));
            && Run(e, [RAISE, UNLOCK]) == Escrow(FINAL, Ledger(8, 8, 0, 0, 0))
            && EventsOf(e, [RAISE, UNLOCK]) == [MilestoneEdited(1, 4, 5), MilestoneUnlocked(0, 3, 0)]
  {
    var e, f := Escrow(CREATED, Ledger(7, 7, 0, 0, 0)), Escrow(RAISED, Ledger(8, 8, 0, 0, 0));
    RaisedThenUnlocked();
    assert [RAISE, UNLOCK][1..] == [UNLOCK] && [UNLOCK][1..] == [];
    assert EventsOf(f, [UNLOCK]) == [MilestoneUnlocked(0, 3, 0)];
    assert Run(f, [UNLOCK]) == Escrow(FINAL, f.ledger);
    assert Advance(e, RAISE) == f;
  }

  /** The history, its edit and its unlock in the transactions `editTx` and `unlockTx`, after a read of `readable`. */
  function History(editTx: string, unlockTx: string, readable: seq<u64>): seq<Delivery> {
    [Delivery("create", STREAM_ID, StreamCreated(MilestoneBased, 7, 0, 0, 0, 2), readable),
     Delivery(editTx, STREAM_ID, MilestoneEdited(1, 4, 5), []),
     Delivery(unlockTx, STREAM_ID, MilestoneUnlocked(0, 3, 0), [])]
  }

  const NOTHING: Database := Database(map[], map[])

  lemma {:induction false} HistoryTells(editTx: string, unlockTx: string, readable: seq<u64>)
    ensures NewsFor(History(editTx, unlockTx, readable), STREAM_ID)
            == [MilestoneEdited(1, 4, 5), MilestoneUnlocked(0, 3, 0)]
  {
    var ds := History(editTx, unlockTx, readable);
    NewsForTail(ds, STREAM_ID);
    NewsForTail(ds[1..], STREAM_ID);
    NewsForTail(ds[2..], STREAM_ID);
    assert ds[1..][1..] == ds[2..] && ds[2..][1..] == [];
  }

  lemma InOrder()
    ensures Ordered(0, [RAISE, UNLOCK])
  {
    assert [RAISE, UNLOCK][1..] == [UNLOCK] && [UNLOCK][1..] == [];
  }

  lemma {:induction false} HistoryIsCreatedFirst(editTx: string, unlockTx: string, readable: seq<u64>)
    requires Free(editTx, ':') && Free(unlockTx, ':')
    ensures var ds := History(editTx, unlockTx, readable);
            && AllPlain(ds) && Mentions(ds, STREAM_ID) && CreatedAs(ds, STREAM_ID, ds[0].event)
            && FirstFor(ds, STREAM_ID) == ds[0]
  {
    var ds := History(editTx, unlockTx, readable);
    assert Plain(ds[0]) && Plain(ds[1]) && Plain(ds[2]);
  }

  lemma {:induction false} HistoryDelivers(editTx: string, unlockTx: string, readable: seq<u64>)
    requires Free(editTx, ':') && Free(unlockTx, ':')
    ensures DeliversRun(NOTHING, STREAM_ID, History(editTx, unlockTx, readable), CONTEXT, REQUEST, [RAISE, UNLOCK])
  {
    Created();
    WholeRun();
    HistoryTells(editTx, unlockTx, readable);
    HistoryIsCreatedFirst(editTx, unlockTx, readable);
    InOrder();
  }

  lemma FirstExactlyWhenApart(editTx: string, unlockTx: string, readable: seq<u64>)
    requires unlockTx != "create"
    ensures UnlocksComeFirst(NOTHING, History(editTx, unlockTx, readable), STREAM_ID) <==> editTx != unlockTx
  {
    var ds := History(editTx, unlockTx, readable);
    assert ds[1].streamId == ds[2].streamId;
    assert FirstOfItsTransaction(NOTHING, ds, 2) <==> editTx != unlockTx;
  }

  /**
   The chain ends with 3 tokens unlocked. The row has them all when the unlock has a transaction of its own, and fewer
   when it shares the edit's.
   */
  lemma {:induction false} SharedTransactionLosesUnlock(editTx: string, unlockTx: string, readable: seq<u64>)
    requires Free(editTx, ':') && Free(unlockTx, ':') && unlockTx != "create"
    ensures var ds := History(editTx, unlockTx, readable);
            && STREAM_ID in Deliver(NOTHING, ds).rows
            && Deliver(NOTHING, ds).rows[STREAM_ID].unlockedAmount <= 3
            && (Deliver(NOTHING, ds).rows[STREAM_ID].unlockedAmount == 3 <==> editTx != unlockTx)
    ensures Run(Escrow(CREATED, Ledger(7, 7, 0, 0, 0)), [RAISE, UNLOCK]).stream.unlockedAmount == 3
  {
    Created();
    WholeRun();
    HistoryDelivers(editTx, unlockTx, readable);
    FirstExactlyWhenApart(editTx, unlockTx, readable);
    UnlockedEqualsChainExactlyWhen(NOTHING, STREAM_ID, History(editTx, unlockTx, readable), CONTEXT, REQUEST,
                                   [RAISE, UNLOCK]);
  }

  lemma TwoJoined(a: string, b: string)
    ensures Join([a, b], ';') == a + ";" + b
  {
    assert [a, b][1..] == [b];
  }

  lemma {:induction false} DeliverThree(db: Database, a: Delivery, b: Delivery, c: Delivery)
    ensures Deliver(db, [a, b, c]) == Handle(Handle(Handle(db, a), b), c)
  {
    var second := Handle(Handle(db, a), b);
    assert [a, b, c][1..] == [b, c] && [b, c][1..] == [c] && [c][1..] == [];
    assert Deliver(second, [c]) == Handle(second, c);
    assert Deliver(Handle(db, a), [b, c]) == Deliver(second, [c]);
  }

  lemma {:induction false} ChainLists()
    ensures Listed(Amounts(Run(Escrow(CREATED, Ledger(7, 7, 0, 0, 0)), [RAISE, UNLOCK]).stream.milestones)) == "3;5"
  {
    WholeRun();
    assert Amounts(FINAL.milestones) == [3, 5];
    assert Decimals([3, 5]) == ["3", "5"];
    TwoJoined("3", "5");
  }

  lemma EditPads(row: Row)
    requires row.milestones == ""
    ensures RowAfter(row, MilestoneEdited(1, 4, 5)).milestones == "0;5"
  {
    assert PaddedParts("", 1) == ["0", "0"];
    assert ["0", "0"][1 := Decimal(5)] == ["0", "5"];
    TwoJoined("0", "5");
  }

  /** A read that stops at the second milestone leaves the list to the edits: "0;5" in the row, "3;5" on the chain. */
  lemma {:induction false} FailedReadPadsTheList(editTx: string, unlockTx: string)
    ensures Listed(Amounts(Run(Escrow(CREATED, Ledger(7, 7, 0, 0, 0)), [RAISE, UNLOCK]).stream.milestones)) == "3;5"
    ensures var rows := Deliver(NOTHING, History(editTx, unlockTx, [3])).rows;
            STREAM_ID in rows && rows[STREAM_ID].milestones == "0;5"
  {
    ChainLists();
    var ds := History(editTx, unlockTx, [3]);
    DeliverThree(NOTHING, ds[0], ds[1], ds[2]);
    var born := Handle(NOTHING, ds[0]);
    EditPads(born.rows[STREAM_ID]);
  }

  /** A cancellation that paid the recipient 5 tokens, delivered twice, leaves a row that says 10. */
  lemma {:induction false} CancellationCountsTwice()
    ensures var db := Database(map[STREAM_ID := Row(8, 0, 0, 0, 100, None, ACTIVE, 0, "", 0)], map[]);
            var d := Delivery("cancel", STREAM_ID, StreamCancelled(5, 3, 5), []);
            && STREAM_ID in Handle(db, d).rows && Handle(db, d).rows[STREAM_ID].withdrawn == 5
            && STREAM_ID in Handle(Handle(db, d), d).rows && Handle(Handle(db, d), d).rows[STREAM_ID].withdrawn == 10
  {
    var db := Database(map[STREAM_ID := Row(8, 0, 0, 0, 100, None, ACTIVE, 0, "", 0)], map[]);
    var d := Delivery("cancel", STREAM_ID, StreamCancelled(5, 3, 5), []);
    CancelEffect(db, d);
    CancelEffect(Handle(db, d), d);
  }
}
