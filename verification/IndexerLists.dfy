/** The stored milestone list: how edits rewrite it, and exactly when it ends up listing the chain's amounts. */
module IndexerLists {
  import opened Numbers
  import opened Accounts
  import opened Text
  import opened Program
  import opened Indexer
  import opened IndexerEvents

  // Lists of amounts survive their text form.

  /** `text` is the stored form of `parts`. */
  predicate Holds(text: string, parts: seq<string>) {
    text == Join(parts, ';') && AllFree(parts, ';') && forall i :: 0 <= i < |parts| ==> parts[i] != ""
  }

  lemma {:induction false} HeldPartsReadBack(text: string, parts: seq<string>)
    requires Holds(text, parts)
    ensures parts == if text == "" then [] else Split(text, ';')
  {
    if parts != [] {
      JoinIsNotEmpty(parts, ';');
      SplitUndoesJoin(parts, ';');
    }
  }

  lemma ListedHolds(amounts: seq<u64>)
    ensures Holds(Listed(amounts), Decimals(amounts))
  {
  }

  /** A stored list of amounts splits back into their numerals. */
  lemma ListedReadsBack(amounts: seq<u64>)
    requires amounts != []
    ensures Listed(amounts) != "" && Split(Listed(amounts), ';') == Decimals(amounts)
  {
    ListedHolds(amounts);
    HeldPartsReadBack(Listed(amounts), Decimals(amounts));
  }

  // What edits do to it.

  function Padded(parts: seq<string>, index: nat): (r: seq<string>)
    ensures |r| > index && |r| >= |parts|
    ensures |parts| > index ==> |r| == |parts|
    ensures |parts| <= index ==> |r| == index + 1
    ensures forall i :: 0 <= i < |r| ==> r[i] == if i < |parts| then parts[i] else "0"
  {
    if |parts| > index then parts else parts + seq(index + 1 - |parts|, _ => "0")
  }

  function PartsAfter(parts: seq<string>, event: Event): seq<string> {
    if event.MilestoneEdited? then Padded(parts, event.index)[event.index := Decimal(event.newAmount)] else parts
  }

  lemma PartsStayFree(parts: seq<string>, event: Event)
    requires AllFree(parts, ';') && forall i :: 0 <= i < |parts| ==> parts[i] != ""
    ensures var r := PartsAfter(parts, event); AllFree(r, ';') && forall i :: 0 <= i < |r| ==> r[i] != ""
  {
  }

  /** Split, pad, overwrite and re-join: the stored text follows the parts, for unlocks counted or lost alike. */
  lemma EditedListHolds(db: Database, d: Delivery, parts: seq<string>)
    requires d.streamId in db.rows && !d.event.StreamCreated? && Holds(db.rows[d.streamId].milestones, parts)
    ensures d.streamId in Handle(db, d).rows
    ensures Holds(Handle(db, d).rows[d.streamId].milestones, PartsAfter(parts, d.event))
  {
    if d.event.MilestoneEdited? {
      var text := db.rows[d.streamId].milestones;
      HeldPartsReadBack(text, parts);
      assert PaddedParts(text, d.event.index) == Padded(parts, d.event.index);
      PartsStayFree(parts, d.event);
    }
  }

  /** Only a creation of a known stream replaces the list, by a complete read of the accounts. */
  lemma RepeatedCreationHolds(db: Database, d: Delivery, parts: seq<string>)
    requires d.streamId in db.rows && d.event.StreamCreated? && Holds(db.rows[d.streamId].milestones, parts)
    ensures d.streamId in Handle(db, d).rows
    ensures Holds(Handle(db, d).rows[d.streamId].milestones,
                  if Complete(d) then Decimals(d.readable[..d.event.milestoneCount]) else parts)
  {
    if Complete(d) {
      ListedHolds(d.readable[..d.event.milestoneCount]);
      ListedReadsBack(d.readable[..d.event.milestoneCount]);
    }
  }

  // What the list holds.

  /** A creation whose handler could read every milestone account. */
  predicate Complete(d: Delivery) {
    d.event.StreamCreated? && 0 < d.event.milestoneCount <= |d.readable|
  }

  /** The last complete read of a stream's milestones, and the milestones edited since. */
  datatype Reading = Reading(read: seq<u64>, edited: set<nat>)

  const UNREAD: Reading := Reading([], {})

  function ReadingAfter(r: Reading, d: Delivery): Reading {
    if Complete(d) then Reading(d.readable[..d.event.milestoneCount], {})
    else r.(edited := r.edited + EditedBy(d.event))
  }

  function ReadingOf(r: Reading, ds: seq<Delivery>, id: string): Reading
    decreases |ds|
  {
    if ds == [] then r else ReadingOf(if ds[0].streamId == id then ReadingAfter(r, ds[0]) else r, ds[1..], id)
  }

  /** Entry `i` of the list: the chain's amount once edited, else what was read, or the padding. */
  function Entry(r: Reading, ms: seq<Milestone>, i: nat): string
    requires i < |ms|
  {
    if i in r.edited then Decimal(ms[i].amount) else if i < |r.read| then Decimal(r.read[i]) else "0"
  }

  /** The parts are what the reading and the chain's milestones say. */
  predicate Follow(parts: seq<string>, r: Reading, ms: seq<Milestone>) {
    && (r.read == [] || |r.read| == |ms|) && |r.read| <= |parts| <= |ms|
    && (forall i :: i in r.edited ==> i < |parts|)
    && forall i: nat :: i < |parts| ==> parts[i] == Entry(r, ms, i)
  }

  /** An edit on the chain and its event keep the list in step. */
  lemma EditKeepsFollowing(
    parts: seq<string>, r: Reading, ms: seq<Milestone>, index: u8, oldAmount: u64, newAmount: u64)
    requires Follow(parts, r, ms) && index < |ms|
    ensures Follow(PartsAfter(parts, MilestoneEdited(index, oldAmount, newAmount)),
                   r.(edited := r.edited + {index as nat}), ms[index := ms[index].(amount := newAmount)])
  {
  }

  lemma UneditedKeepsFollowing(parts: seq<string>, r: Reading, ms: seq<Milestone>, ms': seq<Milestone>)
    requires Follow(parts, r, ms) && |ms'| == |ms|
    requires forall i :: 0 <= i < |ms| ==> ms'[i].amount == ms[i].amount
    ensures Follow(parts, r, ms')
  {
    forall i: nat | i < |parts|
      ensures parts[i] == Entry(r, ms', i)
    {
      assert parts[i] == Entry(r, ms, i);
    }
  }

  lemma OtherStepKeepsFollowing(parts: seq<string>, r: Reading, e: Escrow, step: Step)
    requires Follow(parts, r, e.stream.milestones)
    requires Perform(e, step).Ok? && EditedBy(Perform(e, step).value.event) == {}
    ensures Follow(parts, r, Perform(e, step).value.escrow.stream.milestones)
  {
    var ms, ms' := e.stream.milestones, Perform(e, step).value.escrow.stream.milestones;
    StepChangesOnlyWhatItEdits(e, step, 0);
    forall i: nat | i < |ms|
      ensures ms'[i].amount == ms[i].amount
    {
      StepChangesOnlyWhatItEdits(e, step, i);
    }
    UneditedKeepsFollowing(parts, r, ms, ms');
  }

  lemma StepKeepsFollowing(parts: seq<string>, r: Reading, e: Escrow, step: Step)
    requires Follow(parts, r, e.stream.milestones) && Perform(e, step).Ok?
    ensures var after := Perform(e, step).value;
            Follow(PartsAfter(parts, after.event), r.(edited := r.edited + EditedBy(after.event)),
                   after.escrow.stream.milestones)
  {
    EventKind(e, step);
    match step.instr
    case EditMilestone(index, newAmount, wallet) =>
      EditChangesOneAmount(e, step.ctx, index, newAmount, wallet);
      EditKeepsFollowing(parts, r, e.stream.milestones, index, e.stream.milestones[index].amount, newAmount);
    case _ =>
      OtherStepKeepsFollowing(parts, r, e, step);
      assert r.edited + {} == r.edited;
  }

  lemma RereadFollows(parts: seq<string>, r: Reading, ms: seq<Milestone>, d: Delivery)
    requires Follow(parts, r, ms) && d.event.StreamCreated? && d.event.milestoneCount == |ms|
    ensures Follow(if Complete(d) then Decimals(d.readable[..d.event.milestoneCount]) else parts, ReadingAfter(r, d),
                   ms)
  {
    assert r.edited + {} == r.edited;
  }

  /** Every creation of the stream that is delivered announces `count` milestones. */
  predicate Announces(ds: seq<Delivery>, id: string, count: nat) {
    forall i :: 0 <= i < |ds| && ds[i].streamId == id && ds[i].event.StreamCreated? ==>
      ds[i].event.milestoneCount == count
  }

  lemma AnnouncesTail(ds: seq<Delivery>, id: string, count: nat)
    requires ds != [] && Announces(ds, id, count)
    ensures Announces(ds[1..], id, count)
    ensures ds[0].streamId == id && ds[0].event.StreamCreated? ==> ds[0].event.milestoneCount == count
  {
    assert forall i :: 0 <= i < |ds[1..]| ==> ds[1..][i] == ds[i + 1];
  }

  /**
   Whatever is redelivered, padded or lost on the way: after the events of a run the list holds the last complete read,
   with the milestones edited since at their final amounts.
   */
  lemma {:induction false} DeliveriesKeepFollowing(
    db: Database, ds: seq<Delivery>, id: string, parts: seq<string>, r: Reading, e: Escrow, steps: seq<Step>)
    returns (last: seq<string>)
    requires id in db.rows && Holds(db.rows[id].milestones, parts) && Follow(parts, r, e.stream.milestones)
    requires NewsFor(ds, id) == EventsOf(e, steps) && Announces(ds, id, |e.stream.milestones|)
    ensures id in Deliver(db, ds).rows && Holds(Deliver(db, ds).rows[id].milestones, last)
    ensures Follow(last, ReadingOf(r, ds, id), Run(e, steps).stream.milestones)
    decreases |ds|
  {
    if ds == [] {
      NoEventsNoChange(e, steps);
      return parts;
    }
    var d, db', rest := ds[0], Handle(db, ds[0]), ds[1..];
    NewsForTail(ds, id);
    AnnouncesTail(ds, id, |e.stream.milestones|);
    if d.streamId != id {
      OtherStreamsLeaveRow(db, d, id);
      last := DeliveriesKeepFollowing(db', rest, id, parts, r, e, steps);
    } else if d.event.StreamCreated? {
      RepeatedCreationHolds(db, d, parts);
      RereadFollows(parts, r, e.stream.milestones, d);
      var parts' := if Complete(d) then Decimals(d.readable[..d.event.milestoneCount]) else parts;
      last := DeliveriesKeepFollowing(db', rest, id, parts', ReadingAfter(r, d), e, steps);
    } else {
      last := NewsKeepsFollowing(db, ds, id, parts, r, e, steps);
    }
  }

  lemma {:induction false} NewsKeepsFollowing(
    db: Database, ds: seq<Delivery>, id: string, parts: seq<string>, r: Reading, e: Escrow, steps: seq<Step>)
    returns (last: seq<string>)
    requires id in db.rows && Holds(db.rows[id].milestones, parts) && Follow(parts, r, e.stream.milestones)
    requires NewsFor(ds, id) == EventsOf(e, steps) && Announces(ds, id, |e.stream.milestones|)
    requires ds != [] && IsNews(ds[0], id)
    ensures id in Deliver(db, ds).rows && Holds(Deliver(db, ds).rows[id].milestones, last)
    ensures Follow(last, ReadingOf(r, ds, id), Run(e, steps).stream.milestones)
    decreases |ds|, 0
  {
    NewsForTail(ds, id);
    AnnouncesTail(ds, id, |e.stream.milestones|);
    var step, later := NextEvent(e, steps);
    var after := Perform(e, step).value;
    SameHead(ds[0].event, NewsFor(ds[1..], id), after.event, EventsOf(after.escrow, later));
    EditedListHolds(db, ds[0], parts);
    StepKeepsFollowing(parts, r, e, step);
    StepChangesOnlyWhatItEdits(e, step, 0);
    last := DeliveriesKeepFollowing(Handle(db, ds[0]), ds[1..], id, PartsAfter(parts, after.event),
                                    ReadingAfter(r, ds[0]), after.escrow, later);
  }

  lemma SameHead(a: Event, rest: seq<Event>, b: Event, more: seq<Event>)
    requires [a] + rest == [b] + more
    ensures a == b && rest == more
  {
    assert ([a] + rest)[0] == a && ([b] + more)[0] == b;
    assert ([a] + rest)[1..] == rest && ([b] + more)[1..] == more;
  }

  // Exactly when the list is right.

  /** The list is right: every milestone was edited since the last complete read, or found then at its final amount. */
  predicate ListComesRight(r: Reading, final: seq<Milestone>) {
    forall i: nat :: i < |final| && i !in r.edited ==> i < |r.read| && r.read[i] == final[i].amount
  }

  lemma {:induction false} PositiveIsNotZeroText(amount: u64)
    requires amount > 0
    ensures Decimal(amount) != "0"
  {
    if Decimal(amount) == "0" {
      assert Decimal(0) == "0";
      DecimalIsInjective(amount, 0);
    }
  }

  predicate AmountsPositive(ms: seq<Milestone>) {
    forall i :: 0 <= i < |ms| ==> ms[i].amount > 0
  }

  lemma {:induction false} EntryRightExactlyWhen(r: Reading, ms: seq<Milestone>, i: nat)
    requires i < |ms| && ms[i].amount > 0
    ensures Entry(r, ms, i) == Decimal(ms[i].amount)
            <==> (i !in r.edited ==> i < |r.read| && r.read[i] == ms[i].amount)
  {
    PositiveIsNotZeroText(ms[i].amount);
    if i < |r.read| && Decimal(r.read[i]) == Decimal(ms[i].amount) {
      DecimalIsInjective(r.read[i], ms[i].amount);
    }
  }

  lemma ShortListIsWrong(parts: seq<string>, r: Reading, final: seq<Milestone>)
    requires Follow(parts, r, final) && |parts| < |final|
    ensures !ListComesRight(r, final)
  {
    var i: nat := |parts|;
    assert i !in r.edited && |r.read| <= i;
  }

  lemma {:induction false} EntriesRightExactlyWhen(parts: seq<string>, r: Reading, final: seq<Milestone>)
    requires Follow(parts, r, final) && AmountsPositive(final)
    ensures parts == Decimals(Amounts(final)) <==> ListComesRight(r, final)
  {
    forall i: nat | i < |final|
      ensures Entry(r, final, i) == Decimals(Amounts(final))[i]
              <==> (i !in r.edited ==> i < |r.read| && r.read[i] == final[i].amount)
    {
      EntryRightExactlyWhen(r, final, i);
    }
    if |parts| < |final| {
      ShortListIsWrong(parts, r, final);
    }
    if parts == Decimals(Amounts(final)) {
      forall i: nat | i < |final| && i !in r.edited
        ensures i < |r.read| && r.read[i] == final[i].amount
      {
        assert parts[i] == Entry(r, final, i);
      }
    }
  }

  // Which reads make it right.

  function AmountOf(e: Escrow, i: nat): u64 {
    if i < |e.stream.milestones| then e.stream.milestones[i].amount else 0
  }

  /** Milestones read one by one, each at some moment of the run, make the list come right, later edits or not. */
  lemma {:induction false} ReadsAlongTheRunComeRight(e: Escrow, steps: seq<Step>, readable: seq<u64>, lags: seq<nat>)
    requires |lags| == |readable| == |e.stream.milestones|
    requires forall i :: 0 <= i < |lags| ==> lags[i] <= |steps|
    requires forall i :: 0 <= i < |lags| ==> readable[i] == AmountOf(Run(e, steps[..lags[i]]), i)
    ensures ListComesRight(Reading(readable, EditedIndices(e, steps)), Run(e, steps).stream.milestones)
  {
    AmountsChangeOnlyWhereEdited(e, steps, 0);
    forall i: nat | i < |lags| && i !in EditedIndices(e, steps)
      ensures readable[i] == Run(e, steps).stream.milestones[i].amount
    {
      EditedInPrefix(e, steps, lags[i]);
      AmountsChangeOnlyWhereEdited(e, steps[..lags[i]], i);
      AmountsChangeOnlyWhereEdited(e, steps, i);
    }
  }

  lemma {:induction false} EditedInAppends(a: seq<Event>, b: seq<Event>)
    ensures EditedIn(a + b) == EditedIn(a) + EditedIn(b)
    decreases |a|
  {
    if a == [] {
      assert a + b == b;
    } else {
      assert (a + b)[1..] == a[1..] + b;
      EditedInAppends(a[1..], b);
    }
  }

  lemma {:induction false} EditedInPrefix(e: Escrow, steps: seq<Step>, lag: nat)
    requires lag <= |steps|
    ensures EditedIndices(e, steps[..lag]) <= EditedIndices(e, steps)
  {
    assert steps == steps[..lag] + steps[lag..];
    EventsOfAppends(e, steps[..lag], steps[lag..]);
    EditedInAppends(EventsOf(e, steps[..lag]), EventsOf(Run(e, steps[..lag]), steps[lag..]));
  }

  /** With no complete read among them, deliveries only add edits to a reading. */
  lemma {:induction false} ReadingWithoutReads(r: Reading, ds: seq<Delivery>, id: string)
    requires forall i :: 0 <= i < |ds| && ds[i].streamId == id ==> !Complete(ds[i])
    ensures ReadingOf(r, ds, id) == r.(edited := r.edited + EditedIn(NewsFor(ds, id)))
    decreases |ds|
  {
    if ds == [] {
      assert r.edited + {} == r.edited;
    } else {
      var r' := if ds[0].streamId == id then ReadingAfter(r, ds[0]) else r;
      assert forall i :: 0 <= i < |ds[1..]| ==> ds[1..][i] == ds[i + 1];
      ReadingWithoutReads(r', ds[1..], id);
      NewsForTail(ds, id);
      if IsNews(ds[0], id) {
        EditedInOneMore(ds[0].event, NewsFor(ds[1..], id));
      }
    }
  }

  lemma {:induction false} ReadingOfAppends(r: Reading, a: seq<Delivery>, b: seq<Delivery>, id: string)
    ensures ReadingOf(r, a + b, id) == ReadingOf(ReadingOf(r, a, id), b, id)
    decreases |a|
  {
    if a == [] {
      assert a + b == b;
    } else {
      assert (a + b)[1..] == a[1..] + b && (a + b)[0] == a[0];
      ReadingOfAppends(if a[0].streamId == id then ReadingAfter(r, a[0]) else r, a[1..], b, id);
    }
  }

  /** Only the last complete read counts. */
  lemma {:induction false} LastReadCounts(
    r: Reading, before: seq<Delivery>, d: Delivery, after: seq<Delivery>, id: string)
    requires d.streamId == id && Complete(d) && d.event.milestoneCount == |d.readable|
    requires forall i :: 0 <= i < |after| && after[i].streamId == id ==> !Complete(after[i])
    ensures ReadingOf(r, before + [d] + after, id) == Reading(d.readable, EditedIn(NewsFor(after, id)))
  {
    ReadingOfAppends(r, before + [d], after, id);
    ReadingOfAppends(r, before, [d], id);
    assert [d][1..] == [] && d.readable[..|d.readable|] == d.readable;
    var read := Reading(d.readable, {});
    assert ReadingOf(ReadingOf(r, before, id), [d], id) == read;
    ReadingWithoutReads(read, after, id);
    assert {} + EditedIn(NewsFor(after, id)) == EditedIn(NewsFor(after, id));
  }

  /**
   A creation delivered once more repairs the list: if each of its reads found the chain at some moment from the events
   delivered before it on, the list ends right, whatever the reads before it returned.
   */
  lemma {:induction false} LastReadComesRight(
    before: seq<Delivery>, d: Delivery, after: seq<Delivery>, id: string, e: Escrow, steps: seq<Step>, lags: seq<nat>)
    requires d.streamId == id && Complete(d) && d.event.milestoneCount == |d.readable|
    requires forall i :: 0 <= i < |after| && after[i].streamId == id ==> !Complete(after[i])
    requires NewsFor(after, id) == EventsOf(e, steps)
    requires |lags| == |d.readable| == |e.stream.milestones|
    requires forall i :: 0 <= i < |lags| ==> lags[i] <= |steps|
    requires forall i :: 0 <= i < |lags| ==> d.readable[i] == AmountOf(Run(e, steps[..lags[i]]), i)
    ensures ListComesRight(ReadingOf(UNREAD, before + [d] + after, id), Run(e, steps).stream.milestones)
  {
    LastReadCounts(UNREAD, before, d, after, id);
    ReadsAlongTheRunComeRight(e, steps, d.readable, lags);
  }
}
