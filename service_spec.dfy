/**
 * What each operation of the association service does to the store, as
 * functions of the store before the call.
 *
 * The store may fail: a write that touches a target in `raising` throws
 * (a constraint violation or a lost connection), and `delete()` of a target
 * in `vetoed` returns false (a `beforeDelete` handler refused it). A thrown
 * exception is the outcome `Raised`; writes made before it stay, except
 * where a transaction rolls them back.
 */
module ServiceSpec {
  import opened OrderMaps
  import opened SequentialOrder
  import opened SequentialOrderProps
  import opened AssociationStore

  /** How an operation ends: a boolean result, or an exception. */
  datatype Outcome = Returned(ok: bool) | Raised

  /** Which targets' writes throw, and which targets' deletes are refused. */
  datatype Faults = Faults(raising: set<int>, vetoed: set<int>)

  /** An outcome and the store it leaves. */
  datatype Step = Step(outcome: Outcome, rows: seq<Row>)

  /*******************************************
   * RAW SORT ORDER
   *******************************************/

  /** `reOrder` from the i-th entry of `updates` on: one `UPDATE` per entry, in order. */
  function ReOrderFrom(rows: seq<Row>, faults: Faults, source: int, updates: OrderMap<int>, i: nat): (r: Step)
    requires UniqueKeys(rows) && |updates.keys| == |updates.orders| && i <= |updates.keys|
    ensures UniqueKeys(r.rows) && SameKeys(rows, r.rows)
    ensures forall j :: 0 <= j < |rows| && rows[j].source != source ==> r.rows[j] == rows[j]
    ensures r.outcome != Returned(false)
    decreases |updates.keys| - i
  {
    if i == |updates.keys| then Step(Returned(true), rows)
    else if updates.keys[i] in faults.raising then Step(Raised, rows)
    else
      UpdateOrderKeepsKeys(rows, source, updates.keys[i], updates.orders[i]);
      ReOrderFrom(UpdateOrder(rows, source, updates.keys[i], updates.orders[i]), faults, source, updates, i + 1)
  }

  /** `reOrder`: writes each `target => order` of `updates` to the scope's row of that target. */
  function ReOrder(rows: seq<Row>, faults: Faults, source: int, updates: OrderMap<int>): Step
    requires UniqueKeys(rows) && |updates.keys| == |updates.orders|
  {
    ReOrderFrom(rows, faults, source, updates, 0)
  }

  /** The store once every entry of `updates` has been written. */
  function Written(rows: seq<Row>, source: int, updates: OrderMap<int>): (result: seq<Row>)
    requires IsOrderMap(updates)
    ensures |result| == |rows|
    ensures forall i :: 0 <= i < |rows| ==>
      result[i] == if rows[i].source == source && rows[i].target in updates.keys
                   then Row(source, rows[i].target, updates.orders[IndexOf(updates.keys, rows[i].target)])
                   else rows[i]
  {
    seq(|rows|, i requires 0 <= i < |rows| =>
      if rows[i].source == source && rows[i].target in updates.keys
      then Row(source, rows[i].target, updates.orders[IndexOf(updates.keys, rows[i].target)])
      else rows[i])
  }

  /** `autoReOrder`'s numbering: `array_flip(array_combine(range(1, count), keys))`. */
  function Repack(m: OrderMap<int>): (u: OrderMap<int>)
    requires IsOrderMap(m) && |m.keys| > 0
    ensures IsOrderMap(u) && u.keys == m.keys
    ensures forall i :: 0 <= i < |u.orders| ==> u.orders[i] == i + 1
  {
    FlipCombine(PhpRange(1, |m.keys|), m.keys).value
  }

  /** `autoReOrder`: renumbers the scope 1..N in read order; nothing to do for an empty scope. */
  function AutoReOrder(rows: seq<Row>, faults: Faults, source: int): (r: Step)
    requires UniqueKeys(rows)
    ensures UniqueKeys(r.rows) && SameKeys(rows, r.rows)
    ensures forall j :: 0 <= j < |rows| && rows[j].source != source ==> r.rows[j] == rows[j]
    ensures r.outcome != Returned(false)
  {
    var m := SortOrderMap(rows, source);
    if |m.keys| == 0 then Step(Returned(true), rows)
    else ReOrder(rows, faults, source, Repack(m))
  }

  /*******************************************
   * RECORD SORT ORDER
   *******************************************/

  /** `lookupAssociation`: the stored row with the record's source and target. */
  function LookupRecord(rows: seq<Row>, record: Association): (r: Option<Row>)
    ensures r.Some? ==> r.value in rows && record.source == Some(r.value.source) && record.target == Some(r.value.target)
    ensures r.None? && record.source.Some? && record.target.Some? ==> !HasKey(rows, record.source.value, record.target.value)
  {
    if record.source.Some? && record.target.Some? then Lookup(rows, record.source.value, record.target.value) else None
  }

  /** `nextSortOrder` for a record; a record without a source has an empty scope. */
  function NextSortOrderOf(rows: seq<Row>, source: Option<int>): int {
    if source.Some? then NextSortOrder(rows, source.value) else 1
  }

  /**
   * `ensureSortOrder`: an explicit order is kept; a missing one becomes the
   * existing row's order, or one past every order of the scope (1 for an
   * empty scope).
   */
  function EnsureSortOrder(rows: seq<Row>, record: Association, existing: Option<Row>): (r: Association)
    ensures r.source == record.source && r.target == record.target && r.sortOrder.Some?
    ensures record.sortOrder.Some? ==> r == record
    ensures record.sortOrder.None? && existing.Some? ==> r.sortOrder == Some(existing.value.sortOrder)
    ensures record.sortOrder.None? && existing.None? && record.source.Some? ==>
      && (forall row :: row in rows && row.source == record.source.value ==> row.sortOrder < r.sortOrder.value)
      && (!HasScope(rows, record.source.value) ==> r.sortOrder == Some(1))
  {
    if record.sortOrder.Some? then record
    else if existing.Some? then record.(sortOrder := Some(existing.value.sortOrder))
    else record.(sortOrder := Some(NextSortOrderOf(rows, record.source)))
  }

  /**
   * `$record->save()`: fails validation when the source or the target is
   * missing; otherwise inserts the row, or updates the row with the same key.
   */
  function SaveRecord(rows: seq<Row>, faults: Faults, record: Association): (r: Step)
    requires UniqueKeys(rows) && record.sortOrder.Some?
    ensures UniqueKeys(r.rows)
    ensures r.outcome != Returned(true) ==> r.rows == rows
    ensures r.outcome == Returned(true) <==>
      record.source.Some? && record.target.Some? && record.target.value !in faults.raising
    ensures r.outcome == Returned(true) ==> r.rows == Upsert(rows, RowOf(record, record.sortOrder.value))
  {
    if record.source.None? || record.target.None? then Step(Returned(false), rows)
    else if record.target.value in faults.raising then Step(Raised, rows)
    else Step(Returned(true), Upsert(rows, RowOf(record, record.sortOrder.value)))
  }

  /** The order `applySortOrder` asks for: the record's order, lowered to the size of the scope. */
  function Clamp(order: int, count: nat): (t: int)
    ensures t <= order && t <= count
    ensures t == order || t == count
  {
    if count < order then count else order
  }

  /**
   * `applySortOrder` with `insertIntoOrder`: reads the scope, clamps the
   * record's order to its size, and hands the record's target to the code
   * of `insertSequential` as written. Its updates are written one by one;
   * when its `array_combine` is given lists of different lengths the call
   * throws before anything is written. The record was just saved, so its
   * target is in the map and the `false` outcome, which would call
   * `associate` again, cannot occur.
   */
  function ApplySortOrder(rows: seq<Row>, faults: Faults, record: Association): (r: (Step, Association))
    requires UniqueKeys(rows) && record.source.Some? && record.target.Some? && record.sortOrder.Some?
    requires HasKey(rows, record.source.value, record.target.value)
    ensures UniqueKeys(r.0.rows) && SameKeys(rows, r.0.rows)
    ensures r.0.outcome != Returned(false)
    ensures r.1 == record.(sortOrder := Some(Clamp(record.sortOrder.value, |ScopeRows(rows, record.source.value)|)))
  {
    var source, target := record.source.value, record.target.value;
    var m := SortOrderMap(rows, source);
    ReadMapSize(rows, source);
    var clamped := Clamp(record.sortOrder.value, |m.keys|);
    var saved := record.(sortOrder := Some(clamped));
    var row := Lookup(rows, source, target).value;
    ReadMapHasRow(rows, row);
    AsWrittenSentinels(m, target, clamped);
    match InsertSequentialAsWritten(m, target, clamped)
    case InPlace => (Step(Returned(true), rows), saved)
    case Updates(updates) => (ReOrder(rows, faults, source, updates), saved)
    case CombineFailed => (Step(Raised, rows), saved)
  }

  /**
   * `applySortOrder` as evidently intended: the same steps, with the
   * corrected `insertSequential`, which never fails.
   */
  function IntendedApplySortOrder(rows: seq<Row>, faults: Faults, record: Association): (r: (Step, Association))
    requires UniqueKeys(rows) && record.source.Some? && record.target.Some? && record.sortOrder.Some?
    requires HasKey(rows, record.source.value, record.target.value)
    ensures UniqueKeys(r.0.rows) && SameKeys(rows, r.0.rows)
    ensures r.0.outcome != Returned(false)
    ensures r.1 == record.(sortOrder := Some(Clamp(record.sortOrder.value, |ScopeRows(rows, record.source.value)|)))
  {
    var source, target := record.source.value, record.target.value;
    var m := SortOrderMap(rows, source);
    ReadMapSize(rows, source);
    var clamped := Clamp(record.sortOrder.value, |m.keys|);
    var saved := record.(sortOrder := Some(clamped));
    var row := Lookup(rows, source, target).value;
    ReadMapHasRow(rows, row);
    SentinelOutcomes(m, target, clamped);
    CorrectedNumbering(m, target, clamped);
    match InsertSequential(m, target, clamped)
    case InPlace => (Step(Returned(true), rows), saved)
    case Updates(updates) => (ReOrder(rows, faults, source, updates), saved)
  }

  /*******************************************
   * ASSOCIATE / DISSOCIATE
   *******************************************/

  /**
   * `associate`: an existing row forces the reorder; the record gets its
   * order, is saved, and when reordering its scope is renumbered around it.
   * Returns the record as the call leaves it.
   */
  function Associate(rows: seq<Row>, faults: Faults, record: Association, reOrder: bool): (r: (Step, Association))
    requires UniqueKeys(rows)
    ensures UniqueKeys(r.0.rows)
    ensures record.source.None? || record.target.None? ==> r.0 == Step(Returned(false), rows)
    ensures record.source.Some? && record.target.Some? && record.target.value in faults.raising ==> r.0 == Step(Raised, rows)
    ensures r.1.source == record.source && r.1.target == record.target && r.1.sortOrder.Some?
  {
    var existing := LookupRecord(rows, record);
    var reOrder := if existing.Some? then true else reOrder;
    var record := EnsureSortOrder(rows, record, existing);
    var saved := SaveRecord(rows, faults, record);
    if saved.outcome != Returned(true) then (saved, record)
    else if reOrder then
      assert RowOf(record, record.sortOrder.value) in saved.rows;
      ApplySortOrder(saved.rows, faults, record)
    else (saved, record)
  }

  /** The target whose delete is attempted, once the record is known to exist. */
  function Delete(rows: seq<Row>, faults: Faults, source: int, target: int): (r: Step)
    requires UniqueKeys(rows)
    ensures UniqueKeys(r.rows)
  {
    if target in faults.vetoed then Step(Returned(false), rows)
    else if target in faults.raising then Step(Raised, rows)
    else Step(Returned(true), DeleteRow(rows, source, target))
  }

  /**
   * `dissociate`: nothing to do when no row exists; otherwise the row is
   * deleted and, when reordering, the survivors are renumbered. The result
   * of the renumbering is not consulted: once the delete succeeded the call
   * succeeds, unless the renumbering throws.
   */
  function Dissociate(rows: seq<Row>, faults: Faults, record: Association, reOrder: bool): (r: Step)
    requires UniqueKeys(rows)
    ensures UniqueKeys(r.rows)
    ensures LookupRecord(rows, record).None? ==> r == Step(Returned(true), rows)
    ensures r.outcome == Returned(false) <==>
      LookupRecord(rows, record).Some? && record.target.value in faults.vetoed
    ensures r.outcome == Returned(false) ==> r.rows == rows
  {
    match LookupRecord(rows, record)
    case None => Step(Returned(true), rows)
    case Some(row) =>
      var deleted := Delete(rows, faults, row.source, row.target);
      if deleted.outcome != Returned(true) || !reOrder then deleted
      else
        var renumbered := AutoReOrder(deleted.rows, faults, row.source);
        if renumbered.outcome == Raised then renumbered else Step(Returned(true), renumbered.rows)
  }

  /*******************************************
   * ASSOCIATE / DISSOCIATE MANY
   *******************************************/

  /** `ArrayHelper::remove($currentModels, $target)`: the existing associations without those of `target`. */
  function RemoveTarget(existing: seq<Association>, target: Option<int>): (r: seq<Association>)
    ensures forall a :: a in r <==> a in existing && a.target != target
  {
    if |existing| == 0 then []
    else if existing[0].target == target then RemoveTarget(existing[1..], target)
    else [existing[0]] + RemoveTarget(existing[1..], target)
  }

  /** The result of `associateAll`: an outcome, the store, and the existing associations not in the list. */
  datatype Bulk = Bulk(step: Step, remaining: seq<Association>)

  /**
   * `associateAll` from the i-th association on: each one's target is taken
   * out of the existing associations and the association is saved without
   * reordering; the first failure stops the loop.
   */
  function AssociateAllFrom(rows: seq<Row>, faults: Faults, associations: seq<Association>, remaining: seq<Association>, i: nat): (r: Bulk)
    requires UniqueKeys(rows) && i <= |associations|
    ensures UniqueKeys(r.step.rows)
    decreases |associations| - i
  {
    if i == |associations| then Bulk(Step(Returned(true), rows), remaining)
    else
      var association := associations[i];
      var remaining := RemoveTarget(remaining, association.target);
      var associated := Associate(rows, faults, association, false).0;
      if associated.outcome != Returned(true) then Bulk(associated, remaining)
      else AssociateAllFrom(associated.rows, faults, associations, remaining, i + 1)
  }

  /** `dissociateAll` from the i-th association on: each is dissociated with reordering; the first failure stops the loop. */
  function DissociateAllFrom(rows: seq<Row>, faults: Faults, targets: seq<Association>, i: nat): (r: Step)
    requires UniqueKeys(rows) && i <= |targets|
    ensures UniqueKeys(r.rows)
    decreases |targets| - i
  {
    if i == |targets| then Step(Returned(true), rows)
    else
      var dissociated := Dissociate(rows, faults, targets[i], true);
      if dissociated.outcome != Returned(true) then dissociated
      else DissociateAllFrom(dissociated.rows, faults, targets, i + 1)
  }

  /** `existingAssociations($query)`: the scope's rows, read as records. */
  function ExistingAssociations(rows: seq<Row>, source: Option<int>): (r: seq<Association>)
    ensures source.None? ==> r == []
    ensures source.Some? ==> |r| == |ScopeRows(rows, source.value)|
    ensures source.Some? ==> forall a :: a in r ==> a.source == source
    ensures source.Some? ==> forall row :: row in rows && row.source == source.value ==> RecordOf(row) in r
  {
    if source.None? then []
    else
      var read := ReadScope(rows, source.value);
      RecordsOfScope(read, source.value);
      Records(read)
  }

  /** The rows read, each as the record the query hydrates from it. */
  function Records(read: seq<Row>): (r: seq<Association>)
    ensures |r| == |read|
  {
    seq(|read|, i requires 0 <= i < |read| => RecordOf(read[i]))
  }

  /** Reading one scope: every record belongs to it, and every row of it has its record. */
  lemma RecordsOfScope(read: seq<Row>, source: int)
    requires forall x :: x in read ==> x.source == source
    ensures forall a :: a in Records(read) ==> a.source == Some(source)
    ensures forall row :: row in read ==> RecordOf(row) in Records(read)
  {
    var r := Records(read);
    forall a | a in r ensures a.source == Some(source) {
      var i :| 0 <= i < |r| && r[i] == a;
      assert read[i] in read;
    }
    forall row | row in read ensures RecordOf(row) in r {
      var i :| 0 <= i < |read| && read[i] == row;
      assert r[i] == RecordOf(row);
    }
  }

  /**
   * `save($query)`: nothing to do without a cached result; otherwise, in one
   * transaction, every listed association is saved, then every existing one
   * not listed is dissociated. Any failure or exception rolls the store back.
   */
  function Save(rows: seq<Row>, faults: Faults, cachedResult: Option<seq<Association>>, source: Option<int>): (r: Step)
    requires UniqueKeys(rows)
    ensures UniqueKeys(r.rows)
    ensures cachedResult.None? ==> r == Step(Returned(true), rows)
    ensures r.outcome != Returned(true) ==> r.rows == rows
  {
    if cachedResult.None? then Step(Returned(true), rows)
    else
      var existing := ExistingAssociations(rows, source);
      var associated := AssociateAllFrom(rows, faults, cachedResult.value, existing, 0);
      if associated.step.outcome != Returned(true) then Step(associated.step.outcome, rows)
      else
        var dissociated := DissociateAllFrom(associated.step.rows, faults, associated.remaining, 0);
        if dissociated.outcome != Returned(true) then Step(dissociated.outcome, rows)
        else dissociated
  }
}
