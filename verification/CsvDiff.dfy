/** The edit-mode diff of CSV rows against reference streams: greedy matching through key indexes, and change lists. */
module CsvDiff {
  import opened Results
  import opened Text
  import opened CsvMilestones
  import opened CsvRecords

  datatype Value = Num(n: int) | Txt(s: string)

  /** The fields a matched row and its reference are compared on. */
  datatype Field = Amount | Duration | CliffDuration | Milestones

  datatype DiffChange = DiffChange(field: Field, oldVal: Value, newVal: Value)

  datatype Details = Details(
    creator: Option<string>,
    mint: string,
    vestingType: int,
    amount: int,
    duration: int,
    cliffDuration: int,
    cancelable: Option<bool>,
    milestones: string)

  datatype DiffItem = DiffItem(id: string, recipient: string, changes: seq<DiffChange>, details: Details)

  datatype UnchangedItem = UnchangedItem(
    id: string,
    recipient: string,
    amount: int,
    mint: string,
    duration: int,
    cliffDuration: int,
    cancelable: bool,
    vestingType: int,
    milestones: string)

  // Change lists.

  function PushChange(changes: seq<DiffChange>, field: Field, oldVal: Value, newVal: Value): seq<DiffChange> {
    if oldVal == newVal then changes else changes + [DiffChange(field, oldVal, newVal)]
  }

  function Changes(ref: Rec, row: Rec): seq<DiffChange> {
    var a := PushChange([], Amount, Num(ref.amount), Num(row.amount));
    var b := PushChange(a, Duration, Num(ref.duration), Num(row.duration));
    var c := PushChange(b, CliffDuration, Num(ref.cliffDuration), Num(row.cliffDuration));
    PushChange(c, Milestones, Txt(ref.milestones), Txt(row.milestones))
  }

  function FieldOf(rec: Rec, field: Field): Value {
    match field
    case Amount => Num(rec.amount)
    case Duration => Num(rec.duration)
    case CliffDuration => Num(rec.cliffDuration)
    case Milestones => Txt(rec.milestones)
  }

  /** `rec` with one field set; a value of the wrong kind changes nothing. */
  function WithField(rec: Rec, field: Field, v: Value): Rec {
    match (field, v)
    case (Amount, Num(n)) => rec.(amount := n)
    case (Duration, Num(n)) => rec.(duration := n)
    case (CliffDuration, Num(n)) => rec.(cliffDuration := n)
    case (Milestones, Txt(t)) => rec.(milestones := t)
    case _ => rec
  }

  /** Applying a change list as a patch. */
  function Apply(rec: Rec, changes: seq<DiffChange>): Rec
    decreases |changes|
  {
    if changes == [] then rec
    else Apply(WithField(rec, changes[0].field, changes[0].newVal), changes[1..])
  }

  predicate Agree(ref: Rec, row: Rec) {
    forall f: Field :: FieldOf(ref, f) == FieldOf(row, f)
  }

  lemma {:induction false} ApplyAppends(rec: Rec, a: seq<DiffChange>, b: seq<DiffChange>)
    ensures Apply(rec, a + b) == Apply(Apply(rec, a), b)
    decreases |a|
  {
    if a == [] {
      assert a + b == b;
    } else {
      assert (a + b)[1..] == a[1..] + b;
      ApplyAppends(WithField(rec, a[0].field, a[0].newVal), a[1..], b);
    }
  }

  /** Pushing a change is the same, to a patch, as setting the field. */
  lemma {:induction false} PushedChangeApplies(
    rec: Rec, changes: seq<DiffChange>, field: Field, oldVal: Value, newVal: Value)
    requires FieldOf(Apply(rec, changes), field) == oldVal && (oldVal.Num? <==> newVal.Num?)
    ensures Apply(rec, PushChange(changes, field, oldVal, newVal)) == WithField(Apply(rec, changes), field, newVal)
  {
    if oldVal != newVal {
      var c := DiffChange(field, oldVal, newVal);
      ApplyAppends(rec, changes, [c]);
      assert [c][1..] == [];
      assert Apply(Apply(rec, changes), [c]) == WithField(Apply(rec, changes), field, newVal);
    }
  }

  /** The reference patched with the changes has exactly the row's four values, and nothing else moves. */
  lemma {:induction false} DiffThenPatch(ref: Rec, row: Rec)
    ensures Apply(ref, Changes(ref, row)) ==
            ref.(amount := row.amount, duration := row.duration, cliffDuration := row.cliffDuration,
                 milestones := row.milestones)
  {
    var a := PushChange([], Amount, Num(ref.amount), Num(row.amount));
    var b := PushChange(a, Duration, Num(ref.duration), Num(row.duration));
    var c := PushChange(b, CliffDuration, Num(ref.cliffDuration), Num(row.cliffDuration));
    PushedChangeApplies(ref, [], Amount, Num(ref.amount), Num(row.amount));
    PushedChangeApplies(ref, a, Duration, Num(ref.duration), Num(row.duration));
    PushedChangeApplies(ref, b, CliffDuration, Num(ref.cliffDuration), Num(row.cliffDuration));
    PushedChangeApplies(ref, c, Milestones, Txt(ref.milestones), Txt(row.milestones));
  }

  /** A compared field differs exactly when the change list holds it, with both its values. */
  lemma DifferencesAreListed(ref: Rec, row: Rec, field: Field)
    ensures FieldOf(ref, field) != FieldOf(row, field)
            <==> DiffChange(field, FieldOf(ref, field), FieldOf(row, field)) in Changes(ref, row)
  {
  }

  /** The change list holds nothing else, and no field twice. */
  lemma ListedAreDifferences(ref: Rec, row: Rec)
    ensures var cs := Changes(ref, row);
            && (forall i :: 0 <= i < |cs| ==>
                  cs[i].oldVal == FieldOf(ref, cs[i].field) && cs[i].newVal == FieldOf(row, cs[i].field)
                  && cs[i].oldVal != cs[i].newVal)
            && (forall i, j :: 0 <= i < j < |cs| ==> cs[i].field != cs[j].field)
  {
  }

  lemma NoChangesExactlyWhenAgree(ref: Rec, row: Rec)
    ensures Changes(ref, row) == [] <==> Agree(ref, row)
  {
    if Agree(ref, row) {
      assert FieldOf(ref, Amount) == FieldOf(row, Amount);
      assert FieldOf(ref, Duration) == FieldOf(row, Duration);
      assert FieldOf(ref, CliffDuration) == FieldOf(row, CliffDuration);
      assert FieldOf(ref, Milestones) == FieldOf(row, Milestones);
    }
  }

  // Matching: a plain scan for the least unused reference with the right key.

  function LeastUnused(keys: seq<string>, key: string, consumed: set<nat>): (r: Option<nat>)
    ensures r.Some? ==> r.value < |keys| && keys[r.value] == key && r.value !in consumed
    ensures forall j: nat :: j < |keys| && keys[j] == key && j !in consumed ==> r.Some? && r.value <= j
  {
    if keys == [] then None
    else
      var last := |keys| - 1;
      var r := LeastUnused(keys[..last], key, consumed);
      if r.Some? then r
      else if keys[last] == key && last !in consumed then Some(last)
      else None
  }

  /** How a row found its reference. */
  datatype Match = Unmatched | ById(ref: nat) | ByExactKey(ref: nat) | ByIdentity(ref: nat)

  function Ids(refs: seq<Rec>): (r: seq<string>)
    ensures |r| == |refs| && forall i :: 0 <= i < |refs| ==> r[i] == Trim(refs[i].id)
  {
    seq(|refs|, i requires 0 <= i < |refs| => Trim(refs[i].id))
  }

  function ExactKeys(refs: seq<Rec>): (r: seq<string>)
    ensures |r| == |refs| && forall i :: 0 <= i < |refs| ==> r[i] == ExactKey(refs[i])
  {
    seq(|refs|, i requires 0 <= i < |refs| => ExactKey(refs[i]))
  }

  function IdentityKeys(refs: seq<Rec>): (r: seq<string>)
    ensures |r| == |refs| && forall i :: 0 <= i < |refs| ==> r[i] == IdentityKey(refs[i])
  {
    seq(|refs|, i requires 0 <= i < |refs| => IdentityKey(refs[i]))
  }

  function FindMatch(row: Rec, refs: seq<Rec>, consumed: set<nat>, table: DecimalsTable): (m: Match)
    ensures !m.Unmatched? ==> m.ref < |refs| && m.ref !in consumed
  {
    if row.id != "" then
      var byId := LeastUnused(Ids(refs), Trim(row.id), consumed);
      if byId.Some? then ById(byId.value) else Unmatched
    else
      var again := NormalizedAgain(row, table);
      var exact := LeastUnused(ExactKeys(refs), ExactKey(again), consumed);
      if exact.Some? then ByExactKey(exact.value)
      else
        var identity := LeastUnused(IdentityKeys(refs), IdentityKey(again), consumed);
        if identity.Some? then ByIdentity(identity.value) else Unmatched
  }

  // What that means in terms of ids and keys.

  /** How a row may find a reference. */
  datatype Means = Id | Exact | Identity

  /** Reference `ref` has the row's trimmed id, or its exact key as computed from the row, or its identity key. */
  predicate Answers(ref: Rec, row: Rec, how: Means, table: DecimalsTable) {
    match how
    case Id => Trim(ref.id) == Trim(row.id)
    case Exact => ExactKey(ref) == ExactKey(NormalizedAgain(row, table))
    case Identity => IdentityKey(ref) == IdentityKey(row)
  }

  /** Some reference not consumed yet does. */
  predicate Available(row: Rec, how: Means, refs: seq<Rec>, consumed: set<nat>, table: DecimalsTable) {
    exists j: nat :: j < |refs| && j !in consumed && Answers(refs[j], row, how, table)
  }

  /** Reference number `i` is the first such. */
  predicate FirstAvailable(row: Rec, how: Means, refs: seq<Rec>, consumed: set<nat>, table: DecimalsTable, i: nat) {
    && i < |refs| && i !in consumed && Answers(refs[i], row, how, table)
    && forall j: nat :: j < i && Answers(refs[j], row, how, table) ==> j in consumed
  }

  function Keys(refs: seq<Rec>, how: Means): (r: seq<string>)
    ensures |r| == |refs|
  {
    match how
    case Id => Ids(refs)
    case Exact => ExactKeys(refs)
    case Identity => IdentityKeys(refs)
  }

  lemma {:induction false} ScanFindsTheFirst(
    row: Rec, how: Means, refs: seq<Rec>, consumed: set<nat>, table: DecimalsTable, key: string)
    requires forall j :: 0 <= j < |refs| ==> (Keys(refs, how)[j] == key <==> Answers(refs[j], row, how, table))
    ensures var r := LeastUnused(Keys(refs, how), key, consumed);
            && (r.Some? <==> Available(row, how, refs, consumed, table))
            && (r.Some? ==> FirstAvailable(row, how, refs, consumed, table, r.value))
  {
    var keys := Keys(refs, how);
    var r := LeastUnused(keys, key, consumed);
    assert r.Some? ==> keys[r.value] == key;
    if Available(row, how, refs, consumed, table) {
      var j: nat :| j < |refs| && j !in consumed && Answers(refs[j], row, how, table);
      assert keys[j] == key;
    }
    if r.Some? {
      forall j: nat | j < r.value && Answers(refs[j], row, how, table)
        ensures j in consumed
      {
        assert keys[j] == key;
      }
    }
  }

  /**
   When a row finds a reference, and which: a row with an id if and only if an unconsumed reference has that id; a row
   without one by its exact key if and only if an unconsumed reference has it, and by its identity key if and only if
   none has the exact key and one has the identity key. It is always the first such reference.
   */
  lemma MatchesExactlyWhen(row: Rec, refs: seq<Rec>, consumed: set<nat>, table: DecimalsTable)
    ensures var m := FindMatch(row, refs, consumed, table);
            && (m.ById? <==> row.id != "" && Available(row, Id, refs, consumed, table))
            && (m.ByExactKey? <==> row.id == "" && Available(row, Exact, refs, consumed, table))
            && (m.ByIdentity? <==> && row.id == "" && !Available(row, Exact, refs, consumed, table)
                                   && Available(row, Identity, refs, consumed, table))
            && (m.ById? ==> FirstAvailable(row, Id, refs, consumed, table, m.ref))
            && (m.ByExactKey? ==> FirstAvailable(row, Exact, refs, consumed, table, m.ref))
            && (m.ByIdentity? ==> FirstAvailable(row, Identity, refs, consumed, table, m.ref))
  {
    var again := NormalizedAgain(row, table);
    IdentityKeySurvivesSecondPass(row, table);
    ScanFindsTheFirst(row, Id, refs, consumed, table, Trim(row.id));
    ScanFindsTheFirst(row, Exact, refs, consumed, table, ExactKey(again));
    ScanFindsTheFirst(row, Identity, refs, consumed, table, IdentityKey(again));
  }

  // Reporting.

  function FirstNonEmpty(a: string, b: string, c: string): string {
    if a != "" then a else if b != "" then b else c
  }

  function UnchangedFor(ref: Rec, row: Rec, idx: nat): UnchangedItem {
    UnchangedItem(FirstNonEmpty(ref.id, Trim(row.id), "StreamCSV-UNCH-" + Decimal(idx)), ref.recipient, ref.amount,
                  ref.mint, ref.duration, ref.cliffDuration, ref.cancelable, ref.vestingType, ref.milestones)
  }

  function ModifiedFor(ref: Rec, row: Rec, idx: nat, byId: bool): DiffItem {
    var details :=
      if byId then
        Details(ref.creator, ref.mint, ref.vestingType, row.amount, row.duration, row.cliffDuration, None,
                row.milestones)
      else
        Details(ref.creator, if row.mint != "" then row.mint else ref.mint, row.vestingType, row.amount, row.duration,
                row.cliffDuration, Some(row.cancelable), row.milestones);
    DiffItem(FirstNonEmpty(ref.id, Trim(row.id), "StreamCSV-MOD-" + Decimal(idx)), ref.recipient, Changes(ref, row),
             details)
  }

  datatype DiffState = DiffState(
    consumed: set<nat>,
    modified: seq<DiffItem>,
    unmodified: seq<UnchangedItem>,
    matches: seq<Match>)

  /** What a row's match adds to the outcome: an exact match is never compared field by field. */
  function Report(st: DiffState, m: Match, row: Rec, refs: seq<Rec>): DiffState
    requires !m.Unmatched? ==> m.ref < |refs|
  {
    var idx, matches := |st.matches|, st.matches + [m];
    if m.Unmatched? then st.(matches := matches)
    else
      var ref := refs[m.ref];
      var consumed := st.consumed + {m.ref};
      if m.ByExactKey? || Changes(ref, row) == [] then
        DiffState(consumed, st.modified, st.unmodified + [UnchangedFor(ref, row, idx)], matches)
      else
        DiffState(consumed, st.modified + [ModifiedFor(ref, row, idx, m.ById?)], st.unmodified, matches)
  }

  function DiffRow(st: DiffState, row: Rec, refs: seq<Rec>, table: DecimalsTable): DiffState {
    Report(st, FindMatch(row, refs, st.consumed, table), row, refs)
  }

  const START: DiffState := DiffState({}, [], [], [])

  function DiffRows(rows: seq<Rec>, refs: seq<Rec>, table: DecimalsTable): (st: DiffState)
    ensures |st.matches| == |rows|
  {
    if rows == [] then START
    else DiffRow(DiffRows(rows[..|rows| - 1], refs, table), rows[|rows| - 1], refs, table)
  }

  /** Row number `i`, matched as `m`, appears in the outcome under the heading its comparison calls for. */
  predicate Reported(st: DiffState, m: Match, row: Rec, refs: seq<Rec>, i: nat)
    requires !m.Unmatched? ==> m.ref < |refs|
  {
    if m.Unmatched? then true
    else if m.ByExactKey? || Agree(refs[m.ref], row) then UnchangedFor(refs[m.ref], row, i) in st.unmodified
    else ModifiedFor(refs[m.ref], row, i, m.ById?) in st.modified
  }

  /** What a matched row adds to the outcome: nothing, an unchanged item or a modified one. */
  datatype Item = NoItem | Same(same: UnchangedItem) | Edited(edited: DiffItem)

  function ItemOf(m: Match, row: Rec, refs: seq<Rec>, i: nat): Item
    requires !m.Unmatched? ==> m.ref < |refs|
  {
    if m.Unmatched? then NoItem
    else if m.ByExactKey? || Changes(refs[m.ref], row) == [] then Same(UnchangedFor(refs[m.ref], row, i))
    else Edited(ModifiedFor(refs[m.ref], row, i, m.ById?))
  }

  /** The outcome holds the match and the item of row number `i`. */
  predicate Lists(st: DiffState, m: Match, item: Item, i: nat) {
    && i < |st.matches| && st.matches[i] == m
    && (item.Same? ==> item.same in st.unmodified)
    && (item.Edited? ==> item.edited in st.modified)
  }

  lemma ReportLists(st: DiffState, m: Match, row: Rec, refs: seq<Rec>)
    requires !m.Unmatched? ==> m.ref < |refs|
    ensures Lists(Report(st, m, row, refs), m, ItemOf(m, row, refs, |st.matches|), |st.matches|)
  {
  }

  /** An outcome only grows. */
  predicate Grown(st: DiffState, st': DiffState) {
    st.matches <= st'.matches && st.unmodified <= st'.unmodified && st.modified <= st'.modified
  }

  lemma ReportGrows(st: DiffState, m: Match, row: Rec, refs: seq<Rec>)
    requires !m.Unmatched? ==> m.ref < |refs|
    ensures Grown(st, Report(st, m, row, refs))
  {
  }

  lemma GrownLists(st: DiffState, st': DiffState, m: Match, item: Item, i: nat)
    requires Grown(st, st') && Lists(st, m, item, i)
    ensures Lists(st', m, item, i)
  {
  }

  /** The match of row `i`: found against what the rows before it have consumed. */
  function MatchOf(rows: seq<Rec>, refs: seq<Rec>, table: DecimalsTable, i: nat): (m: Match)
    requires i < |rows|
    ensures !m.Unmatched? ==> m.ref < |refs|
  {
    FindMatch(rows[i], refs, DiffRows(rows[..i], refs, table).consumed, table)
  }

  predicate MatchedAndReported(st: DiffState, m: Match, row: Rec, refs: seq<Rec>, i: nat)
    requires !m.Unmatched? ==> m.ref < |refs|
  {
    i < |st.matches| && st.matches[i] == m && Reported(st, m, row, refs, i)
  }

  lemma ListedIsReported(st: DiffState, m: Match, row: Rec, refs: seq<Rec>, i: nat)
    requires !m.Unmatched? ==> m.ref < |refs|
    requires Lists(st, m, ItemOf(m, row, refs, i), i)
    ensures MatchedAndReported(st, m, row, refs, i)
  {
    if !m.Unmatched? {
      NoChangesExactlyWhenAgree(refs[m.ref], row);
    }
  }

  lemma {:induction false} DiffRowsExtends(rows: seq<Rec>, refs: seq<Rec>, table: DecimalsTable, idx: nat)
    requires idx < |rows|
    ensures DiffRows(rows[..idx + 1], refs, table)
            == DiffRow(DiffRows(rows[..idx], refs, table), rows[idx], refs, table)
  {
    assert rows[..idx + 1][..idx] == rows[..idx];
  }

  lemma {:induction false} NextRowGrows(rows: seq<Rec>, refs: seq<Rec>, table: DecimalsTable, n: nat)
    requires n < |rows|
    ensures Grown(DiffRows(rows[..n], refs, table), DiffRows(rows[..n + 1], refs, table))
  {
    DiffRowsExtends(rows, refs, table, n);
    ReportGrows(DiffRows(rows[..n], refs, table), MatchOf(rows, refs, table, n), rows[n], refs);
  }

  lemma GrownComposes(a: DiffState, b: DiffState, c: DiffState)
    requires Grown(a, b) && Grown(b, c)
    ensures Grown(a, c)
  {
  }

  lemma {:induction false} OutcomeGrows(rows: seq<Rec>, refs: seq<Rec>, table: DecimalsTable, k: nat, n: nat)
    requires k <= n <= |rows|
    ensures Grown(DiffRows(rows[..k], refs, table), DiffRows(rows[..n], refs, table))
    decreases n - k
  {
    if k < n {
      var now, next := DiffRows(rows[..k], refs, table), DiffRows(rows[..k + 1], refs, table);
      NextRowGrows(rows, refs, table, k);
      OutcomeGrows(rows, refs, table, k + 1, n);
      GrownComposes(now, next, DiffRows(rows[..n], refs, table));
    }
  }

  /** Every row is matched that way, and reported as modified or unchanged according to its comparison. */
  lemma {:induction false} RowReported(rows: seq<Rec>, refs: seq<Rec>, table: DecimalsTable, i: nat)
    requires i < |rows|
    ensures MatchedAndReported(DiffRows(rows, refs, table), MatchOf(rows, refs, table, i), rows[i], refs, i)
  {
    var st, prior, m := DiffRows(rows, refs, table), DiffRows(rows[..i], refs, table), MatchOf(rows, refs, table, i);
    DiffRowsExtends(rows, refs, table, i);
    ReportLists(prior, m, rows[i], refs);
    OutcomeGrows(rows, refs, table, i + 1, |rows|);
    assert rows[..|rows|] == rows;
    GrownLists(DiffRows(rows[..i + 1], refs, table), st, m, ItemOf(m, rows[i], refs, i), i);
    ListedIsReported(st, m, rows[i], refs, i);
  }

  lemma FirstIsUnique(row: Rec, how: Means, refs: seq<Rec>, consumed: set<nat>, table: DecimalsTable, i: nat, j: nat)
    requires FirstAvailable(row, how, refs, consumed, table, i) && FirstAvailable(row, how, refs, consumed, table, j)
    ensures i == j
  {
  }

  /**
   An edited row is reported with its changes, and an unedited one as unchanged: a row with an id against the first
   unconsumed reference with that id, and one without, when none has its exact key, against the first unconsumed one
   with its identity key.
   */
  lemma {:induction false} EditIsReported(
    rows: seq<Rec>, refs: seq<Rec>, table: DecimalsTable, i: nat, how: Means, j: nat)
    requires i < |rows|
    requires var consumed := DiffRows(rows[..i], refs, table).consumed;
             && FirstAvailable(rows[i], how, refs, consumed, table, j)
             && (if how.Id? then rows[i].id != ""
                 else how.Identity? && rows[i].id == "" && !Available(rows[i], Exact, refs, consumed, table))
    ensures var st := DiffRows(rows, refs, table);
            if Agree(refs[j], rows[i]) then UnchangedFor(refs[j], rows[i], i) in st.unmodified
            else ModifiedFor(refs[j], rows[i], i, how.Id?) in st.modified
  {
    var consumed := DiffRows(rows[..i], refs, table).consumed;
    assert Available(rows[i], how, refs, consumed, table);
    MatchesExactlyWhen(rows[i], refs, consumed, table);
    FirstIsUnique(rows[i], how, refs, consumed, table, j, FindMatch(rows[i], refs, consumed, table).ref);
    RowReported(rows, refs, table, i);
  }

  /**
   What a modified item says: whose stream it is, the reference's creator, and exactly the values that its changes, as a
   patch, give the reference.
   */
  lemma {:induction false} ModifiedItemTells(ref: Rec, row: Rec, idx: nat, byId: bool)
    ensures var item := ModifiedFor(ref, row, idx, byId);
            var patched := Apply(ref, item.changes);
            && (item.details.amount, item.details.duration) == (patched.amount, patched.duration)
            && (item.details.cliffDuration, item.details.milestones) == (patched.cliffDuration, patched.milestones)
            && item.recipient == ref.recipient && item.details.creator == ref.creator
            && (ref.id != "" ==> item.id == ref.id)
            && (byId || row.mint == "" ==> item.details.mint == ref.mint)
            && (!byId && row.mint != "" ==> item.details.mint == row.mint)
            && item.details.vestingType == (if byId then ref.vestingType else row.vestingType)
            && item.details.cancelable == (if byId then None else Some(row.cancelable))
  {
    DiffThenPatch(ref, row);
  }

  /** An unchanged item lists the reference's own values. */
  lemma UnchangedItemTells(ref: Rec, row: Rec, idx: nat)
    ensures var item := UnchangedFor(ref, row, idx);
            && (item.recipient, item.mint, item.vestingType, item.cancelable)
               == (ref.recipient, ref.mint, ref.vestingType, ref.cancelable)
            && (item.amount, item.duration, item.cliffDuration, item.milestones)
               == (ref.amount, ref.duration, ref.cliffDuration, ref.milestones)
            && (ref.id != "" ==> item.id == ref.id)
            && (ref.id == "" && Trim(row.id) != "" ==> item.id == Trim(row.id))
  {
  }

  // An upload that changes nothing.

  predicate OwnIds(refs: seq<Rec>) {
    && (forall i :: 0 <= i < |refs| ==> refs[i].id != "")
    && forall i, j :: 0 <= i < j < |refs| ==> Trim(refs[i].id) != Trim(refs[j].id)
  }

  function FirstIndices(k: nat): (r: set<nat>)
    ensures forall i: nat :: i in r <==> i < k
  {
    if k == 0 then {} else FirstIndices(k - 1) + {k - 1}
  }

  lemma {:induction false} OwnMatch(refs: seq<Rec>, table: DecimalsTable, k: nat)
    requires OwnIds(refs) && k < |refs|
    ensures FindMatch(refs[k], refs, FirstIndices(k), table) == ById(k)
  {
    var consumed := FirstIndices(k);
    assert FirstAvailable(refs[k], Id, refs, consumed, table, k);
    MatchesExactlyWhen(refs[k], refs, consumed, table);
    assert Available(refs[k], Id, refs, consumed, table);
    FirstIsUnique(refs[k], Id, refs, consumed, table, k, FindMatch(refs[k], refs, consumed, table).ref);
  }

  lemma OwnReport(st: DiffState, refs: seq<Rec>, k: nat)
    requires k < |refs|
    ensures Report(st, ById(k), refs[k], refs)
            == DiffState(st.consumed + {k}, st.modified, st.unmodified + [UnchangedFor(refs[k], refs[k], |st.matches|)],
                         st.matches + [ById(k)])
  {
    NoChangesExactlyWhenAgree(refs[k], refs[k]);
  }

  /** The first `k` streams were matched with themselves, and nothing was modified. */
  predicate OwnSoFar(st: DiffState, k: nat) {
    st.consumed == FirstIndices(k) && st.modified == [] && |st.unmodified| == |st.matches| == k
  }

  lemma OwnStep(st: DiffState, refs: seq<Rec>, table: DecimalsTable, k: nat)
    requires OwnIds(refs) && k < |refs| && OwnSoFar(st, k)
    ensures OwnSoFar(DiffRow(st, refs[k], refs, table), k + 1)
  {
    OwnMatch(refs, table, k);
    OwnReport(st, refs, k);
  }

  lemma {:induction false} OwnPrefix(refs: seq<Rec>, table: DecimalsTable, k: nat)
    requires OwnIds(refs) && k <= |refs|
    ensures OwnSoFar(DiffRows(refs[..k], refs, table), k)
    decreases k
  {
    if k > 0 {
      OwnPrefix(refs, table, k - 1);
      DiffRowsExtends(refs, refs, table, k - 1);
      OwnStep(DiffRows(refs[..k - 1], refs, table), refs, table, k - 1);
    }
  }

  /** Uploading streams with ids of their own just as they are modifies none and lists every one as unchanged. */
  lemma {:induction false} SameUploadChangesNothing(refs: seq<Rec>, table: DecimalsTable, i: nat)
    requires OwnIds(refs) && i < |refs|
    ensures var st := DiffRows(refs, refs, table);
            st.modified == [] && |st.unmodified| == |refs| && UnchangedFor(refs[i], refs[i], i) in st.unmodified
  {
    OwnPrefix(refs, table, |refs|);
    assert refs[..|refs|] == refs;
    OwnPrefix(refs, table, i);
    OwnMatch(refs, table, i);
    RowReported(refs, refs, table, i);
  }

  /** The references some row has matched. */
  function Matched(matches: seq<Match>): set<nat> {
    set i | 0 <= i < |matches| && !matches[i].Unmatched? :: matches[i].ref
  }

  lemma MatchedAppends(matches: seq<Match>, m: Match)
    ensures Matched(matches + [m]) == Matched(matches) + (if m.Unmatched? then {} else {m.ref})
  {
    var all := matches + [m];
    assert all[|matches|] == m;
    assert forall i :: 0 <= i < |matches| ==> all[i] == matches[i];
  }

  /** No reference is matched twice, and every consumed reference accounts for exactly one reported item. */
  predicate Tidy(st: DiffState, refs: seq<Rec>) {
    && st.consumed == Matched(st.matches)
    && (forall i, j | 0 <= i < j < |st.matches| :: DistinctMatches(st.matches[i], st.matches[j]))
    && (forall r | r in st.consumed :: r < |refs|)
    && |st.modified| + |st.unmodified| == |st.consumed| <= |st.matches|
  }

  predicate DistinctMatches(m: Match, n: Match) {
    m.Unmatched? || n.Unmatched? || m.ref != n.ref
  }

  predicate Admissible(m: Match, consumed: set<nat>, refs: seq<Rec>) {
    m.Unmatched? || (m.ref < |refs| && m.ref !in consumed)
  }

  /** What reporting does to the bookkeeping, whatever the items look like. */
  predicate ReportsOne(st: DiffState, m: Match, after: DiffState) {
    && after.matches == st.matches + [m]
    && after.consumed == st.consumed + (if m.Unmatched? then {} else {m.ref})
    && |after.modified| + |after.unmodified| == |st.modified| + |st.unmodified| + (if m.Unmatched? then 0 else 1)
  }

  lemma ReportReportsOne(st: DiffState, m: Match, row: Rec, refs: seq<Rec>)
    requires !m.Unmatched? ==> m.ref < |refs|
    ensures ReportsOne(st, m, Report(st, m, row, refs))
  {
  }

  lemma StillDistinct(matches: seq<Match>, m: Match)
    requires forall i, j | 0 <= i < j < |matches| :: DistinctMatches(matches[i], matches[j])
    requires m.Unmatched? || m.ref !in Matched(matches)
    ensures var all := matches + [m]; forall i, j | 0 <= i < j < |all| :: DistinctMatches(all[i], all[j])
  {
    forall i | 0 <= i < |matches|
      ensures DistinctMatches(matches[i], m)
    {
      if !matches[i].Unmatched? {
        assert matches[i].ref in Matched(matches);
      }
    }
  }

  lemma ReportStaysTidy(st: DiffState, m: Match, after: DiffState, refs: seq<Rec>)
    requires Tidy(st, refs) && Admissible(m, st.consumed, refs) && ReportsOne(st, m, after)
    ensures Tidy(after, refs)
  {
    MatchedAppends(st.matches, m);
    StillDistinct(st.matches, m);
  }

  lemma FoundMatchIsAdmissible(row: Rec, refs: seq<Rec>, consumed: set<nat>, table: DecimalsTable)
    ensures Admissible(FindMatch(row, refs, consumed, table), consumed, refs)
  {
  }

  /** Whatever the rows and references, the outcome of the diff is tidy. */
  lemma {:induction false} EachReferenceOnce(rows: seq<Rec>, refs: seq<Rec>, table: DecimalsTable)
    ensures Tidy(DiffRows(rows, refs, table), refs)
    decreases |rows|
  {
    if rows != [] {
      var n := |rows| - 1;
      EachReferenceOnce(rows[..n], refs, table);
      var prior := DiffRows(rows[..n], refs, table);
      var m := FindMatch(rows[n], refs, prior.consumed, table);
      FoundMatchIsAdmissible(rows[n], refs, prior.consumed, table);
      ReportReportsOne(prior, m, rows[n], refs);
      ReportStaysTidy(prior, m, DiffRows(rows, refs, table), refs);
    }
  }

  lemma {:induction false} BoundedSetIsSmall(s: set<nat>, n: nat)
    requires forall x :: x in s ==> x < n
    ensures |s| <= n
    decreases n
  {
    if n == 0 {
      assert s == {};
    } else {
      BoundedSetIsSmall(s - {n - 1}, n - 1);
    }
  }

  /** In edit mode the items reported are as many as the references consumed, at most one per row and per reference. */
  lemma {:induction false} ReportedCount(rows: seq<Rec>, refs: seq<Rec>, table: DecimalsTable)
    ensures var st := DiffRows(rows, refs, table);
            |st.modified| + |st.unmodified| == |st.consumed| <= (if |rows| <= |refs| then |rows| else |refs|)
  {
    EachReferenceOnce(rows, refs, table);
    BoundedSetIsSmall(DiffRows(rows, refs, table).consumed, |refs|);
  }

  // The service: key indexes instead of scans.

  /** All positions of a key, in increasing order. */
  function IndicesOf(keys: seq<string>, key: string): (r: seq<nat>)
    ensures forall i :: 0 <= i < |r| ==> r[i] < |keys|
  {
    if keys == [] then []
    else IndicesOf(keys[..|keys| - 1], key) + (if keys[|keys| - 1] == key then [|keys| - 1] else [])
  }

  function Bucket(buckets: map<string, seq<nat>>, key: string): seq<nat> {
    if key in buckets then buckets[key] else []
  }

  ghost predicate Indexes(buckets: map<string, seq<nat>>, keys: seq<string>) {
    forall key :: Bucket(buckets, key) == IndicesOf(keys, key)
  }

  function FirstUnused(indexes: seq<nat>, consumed: set<nat>): Option<nat> {
    if indexes == [] then None
    else if indexes[0] !in consumed then Some(indexes[0])
    else FirstUnused(indexes[1..], consumed)
  }

  lemma {:induction false} FirstUnusedAppends(a: seq<nat>, b: seq<nat>, consumed: set<nat>)
    ensures FirstUnused(a + b, consumed)
            == if FirstUnused(a, consumed).Some? then FirstUnused(a, consumed) else FirstUnused(b, consumed)
  {
    if a == [] {
      assert a + b == b;
    } else {
      assert (a + b)[1..] == a[1..] + b;
      FirstUnusedAppends(a[1..], b, consumed);
    }
  }

  /** The first unused index of a bucket is what the plain scan finds. */
  lemma {:induction false} BucketRefinesScan(keys: seq<string>, key: string, consumed: set<nat>)
    ensures FirstUnused(IndicesOf(keys, key), consumed) == LeastUnused(keys, key, consumed)
  {
    if keys != [] {
      var n := |keys| - 1;
      BucketRefinesScan(keys[..n], key, consumed);
      FirstUnusedAppends(IndicesOf(keys[..n], key), if keys[n] == key then [n] else [], consumed);
    }
  }

  method PushIndex(buckets: map<string, seq<nat>>, key: string, index: nat, ghost keys: seq<string>)
    returns (r: map<string, seq<nat>>)
    requires Indexes(buckets, keys) && index == |keys|
    ensures Indexes(r, keys + [key])
  {
    r := buckets;
    if key !in r {
      r := r[key := []];
    }
    r := r[key := r[key] + [index]];
    forall k
      ensures Bucket(r, k) == IndicesOf(keys + [key], k)
    {
      assert (keys + [key])[..|keys|] == keys;
      assert Bucket(buckets, k) == IndicesOf(keys, k);
    }
  }

  lemma TakeOneMore(keys: seq<string>, i: nat)
    requires i < |keys|
    ensures keys[..i + 1] == keys[..i] + [keys[i]]
  {
  }

  method BuildBuckets(refs: seq<Rec>) returns (exact: map<string, seq<nat>>, identity: map<string, seq<nat>>)
    ensures Indexes(exact, ExactKeys(refs)) && Indexes(identity, IdentityKeys(refs))
  {
    exact, identity := map[], map[];
    ghost var exactKeys, identityKeys := ExactKeys(refs), IdentityKeys(refs);
    for i := 0 to |refs|
      invariant Indexes(exact, exactKeys[..i])
      invariant Indexes(identity, identityKeys[..i])
    {
      TakeOneMore(exactKeys, i);
      TakeOneMore(identityKeys, i);
      exact := PushIndex(exact, ExactKey(refs[i]), i, exactKeys[..i]);
      identity := PushIndex(identity, IdentityKey(refs[i]), i, identityKeys[..i]);
    }
    assert exactKeys[..|refs|] == exactKeys && identityKeys[..|refs|] == identityKeys;
  }

  method TakeFirstUnused(indexes: seq<nat>, consumed: set<nat>) returns (r: Option<nat>)
    ensures r == FirstUnused(indexes, consumed)
  {
    for i := 0 to |indexes|
      invariant FirstUnused(indexes, consumed) == FirstUnused(indexes[i..], consumed)
    {
      if indexes[i] !in consumed {
        return Some(indexes[i]);
      }
      assert indexes[i..][1..] == indexes[i + 1..];
    }
    return None;
  }

  lemma {:induction false} ScanStopsHere(keys: seq<string>, key: string, consumed: set<nat>, i: nat)
    requires i < |keys| && LeastUnused(keys[..i], key, consumed).None?
    ensures LeastUnused(keys, key, consumed) == Some(i) <==> keys[i] == key && i !in consumed
    ensures LeastUnused(keys[..i + 1], key, consumed).None? <==> !(keys[i] == key && i !in consumed)
  {
    assert forall j: nat :: j < i ==> keys[..i][j] == keys[j];
    assert keys[..i + 1][..i] == keys[..i];
  }

  method FindById(refs: seq<Rec>, id: string, consumed: set<nat>) returns (r: Option<nat>)
    ensures r == LeastUnused(Ids(refs), id, consumed)
  {
    for i := 0 to |refs|
      invariant LeastUnused(Ids(refs)[..i], id, consumed).None?
    {
      ScanStopsHere(Ids(refs), id, consumed, i);
      if i !in consumed && Trim(refs[i].id) == id {
        return Some(i);
      }
    }
    assert Ids(refs)[..|refs|] == Ids(refs);
    return None;
  }

  method ReportMatch(m: Match, row: Rec, refs: seq<Rec>, idx: nat, consumed: set<nat>, modified: seq<DiffItem>,
                     unmodified: seq<UnchangedItem>, ghost matches: seq<Match>)
    returns (consumed': set<nat>, modified': seq<DiffItem>, unmodified': seq<UnchangedItem>)
    requires !m.Unmatched? ==> m.ref < |refs|
    requires idx == |matches|
    ensures DiffState(consumed', modified', unmodified', matches + [m])
            == Report(DiffState(consumed, modified, unmodified, matches), m, row, refs)
  {
    consumed', modified', unmodified' := consumed, modified, unmodified;
    if !m.Unmatched? {
      consumed' := consumed + {m.ref};
      var ref := refs[m.ref];
      var changes := if m.ByExactKey? then [] else Changes(ref, row);
      if |changes| > 0 {
        modified' := modified + [ModifiedFor(ref, row, idx, m.ById?)];
      } else {
        unmodified' := unmodified + [UnchangedFor(ref, row, idx)];
      }
    }
  }

  /** The edit-mode diff: it consumes, matches and reports exactly as the scanning specification does. */
  method ComputeEditDiff(newRows: seq<CsvRow>, references: seq<Reference>, table: DecimalsTable)
    returns (modified: seq<DiffItem>, unmodified: seq<UnchangedItem>)
    ensures var st := DiffRows(NormalizedRows(newRows, table), NormalizedRefs(references, table), table);
            modified == st.modified && unmodified == st.unmodified
  {
    var rows, refs := NormalizedRows(newRows, table), NormalizedRefs(references, table);
    modified, unmodified := DiffNormalized(rows, refs, table);
  }

  method DiffNormalized(rows: seq<Rec>, refs: seq<Rec>, table: DecimalsTable)
    returns (modified: seq<DiffItem>, unmodified: seq<UnchangedItem>)
    ensures modified == DiffRows(rows, refs, table).modified && unmodified == DiffRows(rows, refs, table).unmodified
  {
    var exact, identity := BuildBuckets(refs);
    var consumed: set<nat> := {};
    ghost var matches: seq<Match> := [];
    modified, unmodified := [], [];
    for idx := 0 to |rows|
      invariant DiffState(consumed, modified, unmodified, matches) == DiffRows(rows[..idx], refs, table)
    {
      DiffRowsExtends(rows, refs, table, idx);
      var m := MatchRow(rows[idx], refs, exact, identity, consumed, table);
      consumed, modified, unmodified := ReportMatch(m, rows[idx], refs, idx, consumed, modified, unmodified, matches);
      matches := matches + [m];
    }
    assert rows[..|rows|] == rows;
  }

  method MatchRow(row: Rec, refs: seq<Rec>, exact: map<string, seq<nat>>, identity: map<string, seq<nat>>,
                  consumed: set<nat>, table: DecimalsTable)
    returns (m: Match)
    requires Indexes(exact, ExactKeys(refs)) && Indexes(identity, IdentityKeys(refs))
    ensures m == FindMatch(row, refs, consumed, table)
  {
    if row.id != "" {
      var byId := FindById(refs, Trim(row.id), consumed);
      m := if byId.Some? then ById(byId.value) else Unmatched;
    } else {
      var again := NormalizedAgain(row, table);
      var byExact := TakeFirstUnused(Bucket(exact, ExactKey(again)), consumed);
      BucketRefinesScan(ExactKeys(refs), ExactKey(again), consumed);
      if byExact.Some? {
        return ByExactKey(byExact.value);
      }
      var byIdentity := TakeFirstUnused(Bucket(identity, IdentityKey(again)), consumed);
      BucketRefinesScan(IdentityKeys(refs), IdentityKey(again), consumed);
      m := if byIdentity.Some? then ByIdentity(byIdentity.value) else Unmatched;
    }
  }

  function NormalizedRows(rows: seq<CsvRow>, table: DecimalsTable): (r: seq<Rec>)
    ensures |r| == |rows| && forall i :: 0 <= i < |rows| ==> r[i] == Normalize(rows[i], table.Resolve(rows[i].mint))
  {
    seq(|rows|, i requires 0 <= i < |rows| => Normalize(rows[i], table.Resolve(rows[i].mint)))
  }

  function NormalizedRefs(references: seq<Reference>, table: DecimalsTable): (r: seq<Rec>)
    ensures |r| == |references|
    ensures forall i :: 0 <= i < |references| ==>
              r[i] == NormalizeReference(references[i], table.Resolve(ReferenceMint(references[i])))
  {
    seq(|references|, i requires 0 <= i < |references| =>
      NormalizeReference(references[i], table.Resolve(ReferenceMint(references[i]))))
  }

  /** `row` is the stream as an export writes it, `ns` the milestone amounts it writes. */
  predicate Writes(row: CsvRow, ref: Reference, decimals: nat, ns: seq<int>) {
    && ref.StreamRef? && row.amount.Some? && row.milestones.Some?
    && row == RowOf(ref, row.amount.value, row.milestones.value)
    && ToBaseUnits(row.amount.value, decimals) == ref.totalAmount
    && WritesMilestones(ref, row.milestones.value, decimals, ns)
  }

  /** Every row writes its reference, in that reference's decimals. */
  predicate WritesAll(rows: seq<CsvRow>, references: seq<Reference>, table: DecimalsTable, lists: seq<seq<int>>) {
    && |rows| == |references| == |lists|
    && forall i :: 0 <= i < |rows| ==>
         Writes(rows[i], references[i], table.Resolve(ReferenceMint(references[i])), lists[i])
  }

  lemma WrittenRowIsReference(row: CsvRow, ref: Reference, table: DecimalsTable, ns: seq<int>)
    requires Writes(row, ref, table.Resolve(ReferenceMint(ref)), ns)
    ensures Normalize(row, table.Resolve(row.mint)) == NormalizeReference(ref, table.Resolve(ReferenceMint(ref)))
  {
    WrittenStreamNormalizesBack(ref, row.amount.value, row.milestones.value, table.Resolve(ReferenceMint(ref)), ns);
  }

  lemma WrittenRowsAreReferences(
    rows: seq<CsvRow>, references: seq<Reference>, table: DecimalsTable, lists: seq<seq<int>>)
    requires WritesAll(rows, references, table, lists)
    ensures NormalizedRows(rows, table) == NormalizedRefs(references, table)
  {
    forall i | 0 <= i < |rows|
      ensures NormalizedRows(rows, table)[i] == NormalizedRefs(references, table)[i]
    {
      WrittenRowIsReference(rows[i], references[i], table, lists[i]);
    }
  }

  /** Streams with ids of their own, written down in human amounts and uploaded again, are all reported unchanged. */
  lemma {:induction false} WrittenStreamsAreUnchanged(
    rows: seq<CsvRow>, references: seq<Reference>, table: DecimalsTable, lists: seq<seq<int>>)
    requires WritesAll(rows, references, table, lists) && OwnIds(NormalizedRefs(references, table))
    ensures var st := DiffRows(NormalizedRows(rows, table), NormalizedRefs(references, table), table);
            st.modified == [] && |st.unmodified| == |references|
  {
    var refs := NormalizedRefs(references, table);
    WrittenRowsAreReferences(rows, references, table, lists);
    OwnPrefix(refs, table, |refs|);
    assert refs[..|refs|] == refs;
  }
}
