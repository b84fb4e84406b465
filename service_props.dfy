/**
 * What the association service's operations promise, proved about the
 * functions of `ServiceSpec` (and so about the methods of
 * `Service.SortableAssociations`, whose contracts are those functions).
 */
module ServiceProps {
  import opened OrderMaps
  import opened SequentialOrder
  import opened SequentialOrderProps
  import opened AssociationStore
  import opened ServiceSpec
  import opened RangeEndFinding

  /*******************************************
   * reOrder
   *******************************************/

  /**
   * Writing the entries from the i-th on, none of whose targets throws:
   * each row of the scope whose target is among them gets its new order,
   * every other row is left as it is.
   */
  lemma {:induction false} ReOrderFromWrites(rows: seq<Row>, faults: Faults, source: int, updates: OrderMap<int>, i: nat)
    requires UniqueKeys(rows) && IsOrderMap(updates) && i <= |updates.keys|
    requires forall k :: i <= k < |updates.keys| ==> updates.keys[k] !in faults.raising
    ensures
      var r := ReOrderFrom(rows, faults, source, updates, i);
      && r.outcome == Returned(true)
      && |r.rows| == |rows|
      && forall j :: 0 <= j < |rows| ==>
           r.rows[j] == if rows[j].source == source && rows[j].target in updates.keys[i..]
                        then Row(source, rows[j].target, updates.orders[IndexOf(updates.keys, rows[j].target)])
                        else rows[j]
    decreases |updates.keys| - i
  {
    if i < |updates.keys| {
      var key, order := updates.keys[i], updates.orders[i];
      var next := UpdateOrder(rows, source, key, order);
      UpdateOrderKeepsKeys(rows, source, key, order);
      ReOrderFromWrites(next, faults, source, updates, i + 1);
      var r := ReOrderFrom(rows, faults, source, updates, i);
      assert r == ReOrderFrom(next, faults, source, updates, i + 1);
      IndexOfDistinct(updates.keys, i);
      assert key !in updates.keys[i + 1..] by {
        forall k | i < k < |updates.keys| ensures updates.keys[k] != key {
        }
      }
      forall j | 0 <= j < |rows|
        ensures r.rows[j] == if rows[j].source == source && rows[j].target in updates.keys[i..]
                             then Row(source, rows[j].target, updates.orders[IndexOf(updates.keys, rows[j].target)])
                             else rows[j]
      {
        assert updates.keys[i..] == [key] + updates.keys[i + 1..];
      }
    }
  }

  /** With no target that throws, `reOrder` succeeds and leaves the store `Written` describes. */
  lemma ReOrderWritesAll(rows: seq<Row>, faults: Faults, source: int, updates: OrderMap<int>)
    requires UniqueKeys(rows) && IsOrderMap(updates)
    requires forall k :: 0 <= k < |updates.keys| ==> updates.keys[k] !in faults.raising
    ensures ReOrder(rows, faults, source, updates) == Step(Returned(true), Written(rows, source, updates))
  {
    ReOrderFromWrites(rows, faults, source, updates, 0);
    assert updates.keys[0..] == updates.keys;
  }

  /** `reOrder` throws exactly when one of the targets from the i-th on throws. */
  lemma {:induction false} ReOrderFromRaises(rows: seq<Row>, faults: Faults, source: int, updates: OrderMap<int>, i: nat)
    requires UniqueKeys(rows) && |updates.keys| == |updates.orders| && i <= |updates.keys|
    ensures ReOrderFrom(rows, faults, source, updates, i).outcome == Raised <==>
      exists k :: i <= k < |updates.keys| && updates.keys[k] in faults.raising
    decreases |updates.keys| - i
  {
    if i < |updates.keys| && updates.keys[i] !in faults.raising {
      UpdateOrderKeepsKeys(rows, source, updates.keys[i], updates.orders[i]);
      ReOrderFromRaises(UpdateOrder(rows, source, updates.keys[i], updates.orders[i]), faults, source, updates, i + 1);
      if exists k :: i <= k < |updates.keys| && updates.keys[k] in faults.raising {
        var k :| i <= k < |updates.keys| && updates.keys[k] in faults.raising;
        assert k != i;
      }
    }
  }

  /*******************************************
   * autoReOrder
   *******************************************/

  /**
   * When none of the scope's targets throws, `autoReOrder` gives the i-th
   * key read (in order of sort order) the order i + 1, and every row of the
   * scope gets one of these; other scopes are untouched.
   */
  lemma AutoReOrderRenumbers(rows: seq<Row>, faults: Faults, source: int)
    requires UniqueKeys(rows)
    requires forall r :: r in rows && r.source == source ==> r.target !in faults.raising
    ensures
      var r := AutoReOrder(rows, faults, source);
      var m := SortOrderMap(rows, source);
      && r.outcome == Returned(true)
      && SameKeys(rows, r.rows)
      && (forall j :: 0 <= j < |rows| && rows[j].source != source ==> r.rows[j] == rows[j])
      && (forall i :: 0 <= i < |m.keys| ==> Row(source, m.keys[i], i + 1) in r.rows)
      && (forall x :: x in r.rows && x.source == source ==> exists i :: 0 <= i < |m.keys| && x == Row(source, m.keys[i], i + 1))
  {
    var r := AutoReOrder(rows, faults, source);
    var m := SortOrderMap(rows, source);
    if |m.keys| == 0 {
      forall x | x in rows && x.source == source ensures false {
        ReadMapHasRow(rows, x);
      }
    } else {
      var u := Repack(m);
      forall i | 0 <= i < |u.keys| ensures u.keys[i] !in faults.raising {
        ReadMapEntry(rows, source, i);
      }
      ReOrderWritesAll(rows, faults, source, u);
      forall j | 0 <= j < |rows| && rows[j].source == source ensures rows[j].target in m.keys {
        ReadMapHasRow(rows, rows[j]);
      }
      forall i | 0 <= i < |m.keys| ensures Row(source, m.keys[i], m.orders[i]) in rows {
        ReadMapEntry(rows, source, i);
      }
      RenumberedScope(rows, source, m, r.rows);
    }
  }

  /**
   * Writing orders 1..N over a scope whose rows are exactly the entries of
   * the read map gives the i-th key the order i + 1, and nothing else.
   */
  lemma RenumberedScope(rows: seq<Row>, source: int, m: OrderMap<int>, after: seq<Row>)
    requires IsOrderMap(m) && |m.keys| > 0
    requires forall j :: 0 <= j < |rows| && rows[j].source == source ==> rows[j].target in m.keys
    requires forall i :: 0 <= i < |m.keys| ==> Row(source, m.keys[i], m.orders[i]) in rows
    requires after == Written(rows, source, Repack(m))
    ensures forall i :: 0 <= i < |m.keys| ==> Row(source, m.keys[i], i + 1) in after
    ensures forall x :: x in after && x.source == source ==> exists i :: 0 <= i < |m.keys| && x == Row(source, m.keys[i], i + 1)
  {
    forall i | 0 <= i < |m.keys| ensures Row(source, m.keys[i], i + 1) in after {
      var j :| 0 <= j < |rows| && rows[j] == Row(source, m.keys[i], m.orders[i]);
      IndexOfDistinct(m.keys, i);
      assert after[j] == Row(source, m.keys[i], i + 1);
    }
    forall x | x in after && x.source == source
      ensures exists i :: 0 <= i < |m.keys| && x == Row(source, m.keys[i], i + 1)
    {
      var j :| 0 <= j < |after| && after[j] == x;
      assert rows[j].source == source;
      var i := IndexOf(m.keys, rows[j].target);
      assert x == Row(source, m.keys[i], i + 1);
    }
  }

  /*******************************************
   * applySortOrder
   *******************************************/

  /**
   * The order read back for a just-saved record is the record's own order,
   * so when that order lies in 1..count the reorder writes nothing, in the
   * code as written and as intended alike.
   */
  lemma ApplySortOrderKeepsSavedOrder(rows: seq<Row>, faults: Faults, record: Association)
    requires UniqueKeys(rows) && record.source.Some? && record.target.Some? && record.sortOrder.Some?
    requires RowOf(record, record.sortOrder.value) in rows
    requires 1 <= record.sortOrder.value <= |ScopeRows(rows, record.source.value)|
    ensures ApplySortOrder(rows, faults, record) == (Step(Returned(true), rows), record)
    ensures IntendedApplySortOrder(rows, faults, record) == (Step(Returned(true), rows), record)
  {
    var source, target, order := record.source.value, record.target.value, record.sortOrder.value;
    var m := SortOrderMap(rows, source);
    ReadMapSize(rows, source);
    ReadMapHasRow(rows, RowOf(record, order));
    var i :| 0 <= i < |m.keys| && m.keys[i] == target && m.orders[i] == order;
    IndexOfDistinct(m.keys, i);
    SentinelOutcomes(m, target, order);
    assert InsertSequentialAsWritten(m, target, order).InPlace?;
    assert InsertSequential(m, target, order).InPlace?;
    assert record.(sortOrder := Some(order)) == record;
  }

  /**
   * Whenever the renumbering starts at 1, or nothing is renumbered, the
   * code as written and the intended code do the same thing to the store.
   */
  lemma ApplySortOrderAsIntended(rows: seq<Row>, faults: Faults, record: Association)
    requires UniqueKeys(rows) && record.source.Some? && record.target.Some? && record.sortOrder.Some?
    requires HasKey(rows, record.source.value, record.target.value)
    ensures
      var m := SortOrderMap(rows, record.source.value);
      var p := PlanInsert(m, record.target.value, Clamp(record.sortOrder.value, |m.keys|));
      !p.Reposition? || p.start == 1 ==> ApplySortOrder(rows, faults, record) == IntendedApplySortOrder(rows, faults, record)
  {
    var source, target := record.source.value, record.target.value;
    var m := SortOrderMap(rows, source);
    var clamped := Clamp(record.sortOrder.value, |m.keys|);
    var p := PlanInsert(m, target, clamped);
    if !p.Reposition? || p.start == 1 {
      ReadMapSize(rows, source);
      AsWrittenAgreesIff(m, target, clamped);
      ApplySortOrderAnswers(rows, faults, record, m);
      SentinelOutcomes(m, target, clamped);
      CorrectedNumbering(m, target, clamped);
    }
  }

  /**
   * Moving the last key read to the last position: the corrected copy
   * writes that one order; the code as written asks `range(count, 1)` for
   * one key, which has one number only when the count is 1 and otherwise
   * makes `array_combine` fail.
   */
  lemma LastKeyMovesToCount<K>(m: OrderMap<K>, key: K)
    requires IsOrderMap(m) && |m.keys| > 0
    requires m.keys[|m.keys| - 1] == key && m.orders[|m.keys| - 1] != |m.keys|
    ensures InsertSequential(m, key, |m.keys|) == Updates(OrderMap([key], [|m.keys|]))
    ensures InsertSequentialAsWritten(m, key, |m.keys|)
      == if |m.keys| == 1 then Updates(OrderMap([key], [1])) else CombineFailed
  {
    var n := |m.keys|;
    IndexOfDistinct(m.keys, n - 1);
    SentinelOutcomes(m, key, n);
    var p := PlanInsert(m, key, n);
    assert p.Reposition?;
    var slice := DropMap(m, n - 1);
    assert slice.keys == [key];
    RemoveKeyLeaves(slice, key);
    assert Without(slice.keys, key) == [];
    assert Affected(m, key, n).rest == RemoveKey(slice, key).rest;
    assert p.keys == [key];
    CorrectedFromPlan(m, key, n);
    assert PhpRange(n, n) == [n];
    AsWrittenFromPlan(m, key, n);
    assert |PhpRange(n, 1)| == n;
    if n == 1 {
      assert PhpRange(1, 1) == [1];
    }
  }

  /** A row of the scope whose order is above every other one's is read last. */
  lemma UniqueMaxReadLast(rows: seq<Row>, row: Row)
    requires UniqueKeys(rows) && row in rows
    requires forall r :: r in rows && r.source == row.source && r.target != row.target ==> r.sortOrder < row.sortOrder
    ensures
      var m := SortOrderMap(rows, row.source);
      |m.keys| > 0 && m.keys[|m.keys| - 1] == row.target && m.orders[|m.keys| - 1] == row.sortOrder
  {
    var read := ReadScope(rows, row.source);
    LastOfSortedScope(rows, row, read);
    var m := SortOrderMap(rows, row.source);
    assert m.keys == Targets(read) && m.orders == Orders(read);
  }

  /** Any sorted listing of a scope ends with the row whose order is above every other one's. */
  lemma LastOfSortedScope(rows: seq<Row>, row: Row, read: seq<Row>)
    requires UniqueKeys(rows) && row in rows
    requires forall r :: r in rows && r.source == row.source && r.target != row.target ==> r.sortOrder < row.sortOrder
    requires forall x :: x in read <==> x in rows && x.source == row.source
    requires SortedByOrder(read)
    ensures |read| > 0 && read[|read| - 1] == row
  {
    assert row in read;
    var i :| 0 <= i < |read| && read[i] == row;
    var last := read[|read| - 1];
    assert last in read;
    assert row.sortOrder <= last.sortOrder;
    KeyDeterminesRow(rows, last, row);
  }

  /**
   * A record saved with an order past the size of its scope, above every
   * other order there, is clamped to the size of the scope. As written, the
   * call then throws without writing when the scope holds two rows or more,
   * and writes order 1 to a row alone in its scope.
   */
  lemma ClampedRecordMovesToCount(rows: seq<Row>, faults: Faults, record: Association)
    requires UniqueKeys(rows) && record.source.Some? && record.target.Some? && record.sortOrder.Some?
    requires RowOf(record, record.sortOrder.value) in rows
    requires forall r :: r in rows && r.source == record.source.value && r.target != record.target.value ==>
      r.sortOrder < record.sortOrder.value
    requires |ScopeRows(rows, record.source.value)| < record.sortOrder.value
    ensures
      var count := |ScopeRows(rows, record.source.value)|;
      var saved := record.(sortOrder := Some(count));
      && (count >= 2 ==> ApplySortOrder(rows, faults, record) == (Step(Raised, rows), saved))
      && (count == 1 && record.target.value !in faults.raising ==>
            ApplySortOrder(rows, faults, record)
              == (Step(Returned(true), UpdateOrder(rows, record.source.value, record.target.value, 1)), saved))
  {
    var source, target := record.source.value, record.target.value;
    var m := SortOrderMap(rows, source);
    ReadMapSize(rows, source);
    var count := |m.keys|;
    TopRowMovesToCount(rows, RowOf(record, record.sortOrder.value), m);
    ApplySortOrderAnswers(rows, faults, record, m);
    if count == 1 && target !in faults.raising {
      var updates := OrderMap([target], [1]);
      UpdateOrderKeepsKeys(rows, source, target, 1);
      assert ReOrder(rows, faults, source, updates)
        == ReOrderFrom(UpdateOrder(rows, source, target, 1), faults, source, updates, 1);
    }
  }

  /**
   * The same record under the intended code: it is clamped to the size of
   * the scope and that order is written to its row; nothing else changes.
   */
  lemma IntendedClampedRecordMovesToCount(rows: seq<Row>, faults: Faults, record: Association)
    requires UniqueKeys(rows) && record.source.Some? && record.target.Some? && record.sortOrder.Some?
    requires RowOf(record, record.sortOrder.value) in rows
    requires forall r :: r in rows && r.source == record.source.value && r.target != record.target.value ==>
      r.sortOrder < record.sortOrder.value
    requires |ScopeRows(rows, record.source.value)| < record.sortOrder.value
    requires record.target.value !in faults.raising
    ensures
      var count := |ScopeRows(rows, record.source.value)|;
      IntendedApplySortOrder(rows, faults, record)
        == (Step(Returned(true), UpdateOrder(rows, record.source.value, record.target.value, count)),
            record.(sortOrder := Some(count)))
  {
    var source, target := record.source.value, record.target.value;
    var m := SortOrderMap(rows, source);
    ReadMapSize(rows, source);
    var count := |m.keys|;
    var updates := OrderMap([target], [count]);
    TopRowMovesToCount(rows, RowOf(record, record.sortOrder.value), m);
    ApplySortOrderAnswers(rows, faults, record, m);
    UpdateOrderKeepsKeys(rows, source, target, count);
    assert ReOrder(rows, faults, source, updates)
      == ReOrderFrom(UpdateOrder(rows, source, target, count), faults, source, updates, 1);
  }

  /** The read of a scope whose top row is past its size is the case of `LastKeyMovesToCount`. */
  lemma TopRowMovesToCount(rows: seq<Row>, row: Row, m: OrderMap<int>)
    requires UniqueKeys(rows) && row in rows && m == SortOrderMap(rows, row.source)
    requires forall r :: r in rows && r.source == row.source && r.target != row.target ==> r.sortOrder < row.sortOrder
    requires |m.keys| < row.sortOrder
    ensures InsertSequential(m, row.target, |m.keys|) == Updates(OrderMap([row.target], [|m.keys|]))
    ensures InsertSequentialAsWritten(m, row.target, |m.keys|)
      == if |m.keys| == 1 then Updates(OrderMap([row.target], [1])) else CombineFailed
  {
    UniqueMaxReadLast(rows, row);
    LastKeyMovesToCount(m, row.target);
  }

  /** `applySortOrder`, as written and as intended, once `insertSequential` has answered. */
  lemma ApplySortOrderAnswers(rows: seq<Row>, faults: Faults, record: Association, m: OrderMap<int>)
    requires UniqueKeys(rows) && record.source.Some? && record.target.Some? && record.sortOrder.Some?
    requires HasKey(rows, record.source.value, record.target.value)
    requires m == SortOrderMap(rows, record.source.value)
    ensures
      var written := InsertSequentialAsWritten(m, record.target.value, Clamp(record.sortOrder.value, |m.keys|));
      && (written.Updates? ==> ApplySortOrder(rows, faults, record).0 == ReOrder(rows, faults, record.source.value, written.updates))
      && (written.CombineFailed? ==> ApplySortOrder(rows, faults, record).0 == Step(Raised, rows))
    ensures
      var intended := InsertSequential(m, record.target.value, Clamp(record.sortOrder.value, |m.keys|));
      intended.Updates? ==> IntendedApplySortOrder(rows, faults, record).0 == ReOrder(rows, faults, record.source.value, intended.updates)
  {
    ReadMapSize(rows, record.source.value);
  }

  /*******************************************
   * associate / dissociate
   *******************************************/

  /**
   * `associate` deletes no row and adds at most the record's own; when it
   * succeeds the record's row exists.
   */
  lemma AssociateKeys(rows: seq<Row>, faults: Faults, record: Association, reOrder: bool)
    requires UniqueKeys(rows)
    ensures
      var r := Associate(rows, faults, record, reOrder).0;
      && KeySubset(rows, r.rows)
      && (forall s, t :: HasKey(r.rows, s, t) ==> HasKey(rows, s, t) || (record.source == Some(s) && record.target == Some(t)))
      && (r.outcome == Returned(true) ==>
            record.source.Some? && record.target.Some? && HasKey(r.rows, record.source.value, record.target.value))
  {
    var current := EnsureSortOrder(rows, record, LookupRecord(rows, record));
    var saved := SaveRecord(rows, faults, current);
    var r := Associate(rows, faults, record, reOrder).0;
    if saved.outcome == Returned(true) {
      var row := RowOf(current, current.sortOrder.value);
      forall s, t | HasKey(rows, s, t) ensures HasKey(saved.rows, s, t) {
        var x :| x in rows && x.source == s && x.target == t;
        if x.source == row.source && x.target == row.target {
          assert row in saved.rows;
        } else {
          assert x in saved.rows;
        }
      }
      forall s, t | HasKey(saved.rows, s, t) ensures HasKey(rows, s, t) || (s == row.source && t == row.target) {
        var x :| x in saved.rows && x.source == s && x.target == t;
        assert x == row || x in rows;
      }
      assert SameKeys(saved.rows, r.rows);
      SameKeysHaveKeys(saved.rows, r.rows);
      assert HasKey(saved.rows, row.source, row.target);
    }
  }

  /** An existing row makes `associate` reorder whatever the caller asked for. */
  lemma ExistingRowForcesReorder(rows: seq<Row>, faults: Faults, record: Association)
    requires UniqueKeys(rows) && LookupRecord(rows, record).Some?
    requires record.target.value !in faults.raising
    ensures Associate(rows, faults, record, false) == Associate(rows, faults, record, true)
    ensures
      var current := EnsureSortOrder(rows, record, LookupRecord(rows, record));
      var row := RowOf(current, current.sortOrder.value);
      Associate(rows, faults, record, false) == ApplySortOrder(Upsert(rows, row), faults, current)
  {
    var current := EnsureSortOrder(rows, record, LookupRecord(rows, record));
    assert SaveRecord(rows, faults, current).outcome == Returned(true);
  }

  /**
   * The reorder does not make the scope's orders dense: a scope `{a: 1}`
   * given a new target `b` at order 1 ends as `{a: 1, b: 1}`, since the order
   * read back for `b` is already 1.
   */
  lemma AssociateCanDuplicateOrders(faults: Faults, source: int, a: int, b: int)
    requires a != b && b !in faults.raising
    ensures
      Associate([Row(source, a, 1)], faults, Association(Some(source), Some(b), Some(1)), true).0
        == Step(Returned(true), [Row(source, a, 1), Row(source, b, 1)])
  {
    var rows := [Row(source, a, 1)];
    var record := Association(Some(source), Some(b), Some(1));
    var saved := [Row(source, a, 1), Row(source, b, 1)];
    assert !HasKey(rows, source, b);
    assert Upsert(rows, Row(source, b, 1)) == saved;
    assert ScopeRows(saved, source) == saved;
    ApplySortOrderKeepsSavedOrder(saved, faults, record);
  }

  /**
   * `dissociate` adds no row and deletes at most the record's own; when it
   * succeeds the record's row is gone.
   */
  lemma DissociateKeys(rows: seq<Row>, faults: Faults, record: Association, reOrder: bool)
    requires UniqueKeys(rows)
    ensures
      var r := Dissociate(rows, faults, record, reOrder);
      && KeySubset(r.rows, rows)
      && (forall s, t :: HasKey(rows, s, t) && !(record.source == Some(s) && record.target == Some(t)) ==> HasKey(r.rows, s, t))
      && (r.outcome == Returned(true) && record.source.Some? && record.target.Some? ==>
            !HasKey(r.rows, record.source.value, record.target.value))
  {
    var r := Dissociate(rows, faults, record, reOrder);
    match LookupRecord(rows, record)
    case None =>
    case Some(row) =>
      var deleted := Delete(rows, faults, row.source, row.target);
      if deleted.outcome == Returned(true) {
        forall s, t | HasKey(deleted.rows, s, t) ensures HasKey(rows, s, t) {
          var x :| x in deleted.rows && x.source == s && x.target == t;
        }
        forall s, t | HasKey(rows, s, t) && !(s == row.source && t == row.target) ensures HasKey(deleted.rows, s, t) {
          var x :| x in rows && x.source == s && x.target == t;
          assert x in deleted.rows;
        }
        if reOrder {
          SameKeysHaveKeys(deleted.rows, AutoReOrder(deleted.rows, faults, row.source).rows);
        }
      }
  }

  /**
   * Dissociating an existing row with reordering, when nothing fails, deletes
   * it and renumbers the rows left in its scope 1..N in the order they are
   * read; other scopes keep their rows.
   */
  lemma DissociateRepacks(rows: seq<Row>, faults: Faults, row: Row)
    requires UniqueKeys(rows) && row in rows
    requires row.target !in faults.vetoed
    requires forall r :: r in rows && r.source == row.source ==> r.target !in faults.raising
    ensures
      var r := Dissociate(rows, faults, RecordOf(row), true);
      var survivors := SortOrderMap(DeleteRow(rows, row.source, row.target), row.source);
      && r.outcome == Returned(true)
      && !HasKey(r.rows, row.source, row.target)
      && (forall i :: 0 <= i < |survivors.keys| ==> Row(row.source, survivors.keys[i], i + 1) in r.rows)
      && (forall x :: x in r.rows && x.source == row.source ==>
            exists i :: 0 <= i < |survivors.keys| && x == Row(row.source, survivors.keys[i], i + 1))
      && (forall x :: x in rows && x.source != row.source ==> x in r.rows)
  {
    var record := RecordOf(row);
    assert LookupRecord(rows, record) == Some(row) by {
      KeyDeterminesRow(rows, Lookup(rows, row.source, row.target).value, row);
    }
    var deleted := DeleteRow(rows, row.source, row.target);
    AutoReOrderRenumbers(deleted, faults, row.source);
    DissociateKeys(rows, faults, record, true);
    var r := Dissociate(rows, faults, record, true);
    assert r.rows == AutoReOrder(deleted, faults, row.source).rows;
    KeptOutsideScope(deleted, r.rows, row.source);
  }

  /** Rows another scope keeps at their index are still in the table. */
  lemma KeptOutsideScope(before: seq<Row>, after: seq<Row>, source: int)
    requires |before| == |after|
    requires forall j :: 0 <= j < |before| && before[j].source != source ==> after[j] == before[j]
    ensures forall x :: x in before && x.source != source ==> x in after
  {
    forall x | x in before && x.source != source ensures x in after {
      var j :| 0 <= j < |before| && before[j] == x;
      assert after[j] == x;
    }
  }

  /*******************************************
   * associateAll / dissociateAll / save
   *******************************************/

  /** Every key of `after` was in `before` or is listed from the i-th association on. */
  ghost predicate AddsOnlyListed(before: seq<Row>, after: seq<Row>, listed: seq<Association>, i: nat) {
    forall s, t :: HasKey(after, s, t) ==>
      HasKey(before, s, t) || exists k :: i <= k < |listed| && listed[k].source == Some(s) && listed[k].target == Some(t)
  }

  /** Every association listed from the i-th on is complete and has its row in `after`. */
  ghost predicate HoldsListed(after: seq<Row>, listed: seq<Association>, i: nat) {
    forall k :: i <= k < |listed| ==>
      listed[k].source.Some? && listed[k].target.Some? && HasKey(after, listed[k].source.value, listed[k].target.value)
  }

  /** Every key of `before` not listed from the i-th association on is still in `after`. */
  ghost predicate KeepsUnlisted(before: seq<Row>, after: seq<Row>, listed: seq<Association>, i: nat) {
    forall s, t :: HasKey(before, s, t) && (forall k :: i <= k < |listed| ==> !(listed[k].source == Some(s) && listed[k].target == Some(t))) ==>
      HasKey(after, s, t)
  }

  /** No complete association listed from the i-th on has a row in `after`. */
  ghost predicate DropsListed(after: seq<Row>, listed: seq<Association>, i: nat) {
    forall k :: i <= k < |listed| && listed[k].source.Some? && listed[k].target.Some? ==>
      !HasKey(after, listed[k].source.value, listed[k].target.value)
  }

  /**
   * `associateAll` from the i-th association on deletes no row and adds only
   * listed ones; on success every listed association has its row.
   */
  lemma {:induction false} AssociateAllKeys(rows: seq<Row>, faults: Faults, associations: seq<Association>, remaining: seq<Association>, i: nat)
    requires UniqueKeys(rows) && i <= |associations|
    ensures
      var r := AssociateAllFrom(rows, faults, associations, remaining, i);
      && KeySubset(rows, r.step.rows)
      && AddsOnlyListed(rows, r.step.rows, associations, i)
      && (r.step.outcome == Returned(true) ==> HoldsListed(r.step.rows, associations, i))
    decreases |associations| - i
  {
    if i < |associations| {
      var association := associations[i];
      var associated := Associate(rows, faults, association, false).0;
      AssociateKeys(rows, faults, association, false);
      if associated.outcome == Returned(true) {
        AssociateAllKeys(associated.rows, faults, associations, RemoveTarget(remaining, association.target), i + 1);
      }
      AssociateAllKeysTurn(rows, associated, AssociateAllFrom(rows, faults, associations, remaining, i).step, associations, i);
    }
  }

  /** One turn of `associateAll`: what one `associate` and the rest of the loop do to the keys. */
  lemma AssociateAllKeysTurn(rows: seq<Row>, step: Step, r: Step, listed: seq<Association>, i: nat)
    requires i < |listed|
    requires KeySubset(rows, step.rows)
    requires forall s, t :: HasKey(step.rows, s, t) ==> HasKey(rows, s, t) || (listed[i].source == Some(s) && listed[i].target == Some(t))
    requires step.outcome == Returned(true) ==>
      listed[i].source.Some? && listed[i].target.Some? && HasKey(step.rows, listed[i].source.value, listed[i].target.value)
    requires step.outcome != Returned(true) ==> r == step
    requires step.outcome == Returned(true) ==>
      && KeySubset(step.rows, r.rows)
      && AddsOnlyListed(step.rows, r.rows, listed, i + 1)
      && (r.outcome == Returned(true) ==> HoldsListed(r.rows, listed, i + 1))
    ensures KeySubset(rows, r.rows) && AddsOnlyListed(rows, r.rows, listed, i)
    ensures r.outcome == Returned(true) ==> HoldsListed(r.rows, listed, i)
  {
    forall s, t | HasKey(r.rows, s, t)
      ensures HasKey(rows, s, t) || exists k :: i <= k < |listed| && listed[k].source == Some(s) && listed[k].target == Some(t)
    {
      if step.outcome == Returned(true) && !HasKey(step.rows, s, t) {
        var k :| i + 1 <= k < |listed| && listed[k].source == Some(s) && listed[k].target == Some(t);
      } else if !HasKey(rows, s, t) {
        assert listed[i].source == Some(s) && listed[i].target == Some(t);
      }
    }
  }

  /** No association from the i-th on has the target of `a`. */
  predicate TargetNotListed(a: Association, associations: seq<Association>, i: nat) {
    forall k :: i <= k < |associations| ==> associations[k].target != a.target
  }

  /**
   * `associateAll` from the i-th association on takes out of the existing
   * associations those whose target it reaches, and no others; on success
   * none of the listed targets is left among them.
   */
  lemma {:induction false} AssociateAllRemaining(rows: seq<Row>, faults: Faults, associations: seq<Association>, remaining: seq<Association>, i: nat)
    requires UniqueKeys(rows) && i <= |associations|
    ensures
      var r := AssociateAllFrom(rows, faults, associations, remaining, i);
      && (forall a :: a in r.remaining ==> a in remaining)
      && (forall a :: a in remaining && TargetNotListed(a, associations, i) ==> a in r.remaining)
      && (r.step.outcome == Returned(true) ==> forall a :: a in r.remaining ==> TargetNotListed(a, associations, i))
    decreases |associations| - i
  {
    if i < |associations| {
      var association := associations[i];
      var next := RemoveTarget(remaining, association.target);
      var associated := Associate(rows, faults, association, false).0;
      var r := AssociateAllFrom(rows, faults, associations, remaining, i);
      if associated.outcome == Returned(true) {
        AssociateAllRemaining(associated.rows, faults, associations, next, i + 1);
        assert r == AssociateAllFrom(associated.rows, faults, associations, next, i + 1);
      } else {
        assert r == Bulk(associated, next);
      }
      AssociateAllRemainingTurn(associated, r, remaining, associations, i);
    }
  }

  /** One turn of `associateAll`: what taking out the i-th target and the rest of the loop leave. */
  lemma AssociateAllRemainingTurn(step: Step, r: Bulk, remaining: seq<Association>, listed: seq<Association>, i: nat)
    requires i < |listed|
    requires step.outcome != Returned(true) ==> r.remaining == RemoveTarget(remaining, listed[i].target)
    requires step.outcome == Returned(true) ==>
      var next := RemoveTarget(remaining, listed[i].target);
      && (forall a :: a in r.remaining ==> a in next)
      && (forall a :: a in next && TargetNotListed(a, listed, i + 1) ==> a in r.remaining)
      && (r.step.outcome == Returned(true) ==> forall a :: a in r.remaining ==> TargetNotListed(a, listed, i + 1))
    requires step.outcome != Returned(true) ==> r.step == step
    ensures forall a :: a in r.remaining ==> a in remaining
    ensures forall a :: a in remaining && TargetNotListed(a, listed, i) ==> a in r.remaining
    ensures r.step.outcome == Returned(true) ==> forall a :: a in r.remaining ==> TargetNotListed(a, listed, i)
  {
    var next := RemoveTarget(remaining, listed[i].target);
    forall a | a in remaining && TargetNotListed(a, listed, i) ensures a in r.remaining {
      assert a in next;
    }
    if r.step.outcome == Returned(true) {
      forall a | a in r.remaining ensures TargetNotListed(a, listed, i) {
        assert a in next;
      }
    }
  }

  /**
   * `dissociateAll` from the i-th record on adds no row and deletes only the
   * listed ones; on success every listed row is gone.
   */
  lemma {:induction false} DissociateAllKeys(rows: seq<Row>, faults: Faults, targets: seq<Association>, i: nat)
    requires UniqueKeys(rows) && i <= |targets|
    ensures
      var r := DissociateAllFrom(rows, faults, targets, i);
      && KeySubset(r.rows, rows)
      && KeepsUnlisted(rows, r.rows, targets, i)
      && (r.outcome == Returned(true) ==> DropsListed(r.rows, targets, i))
    decreases |targets| - i
  {
    if i < |targets| {
      var dissociated := Dissociate(rows, faults, targets[i], true);
      DissociateKeys(rows, faults, targets[i], true);
      if dissociated.outcome == Returned(true) {
        DissociateAllKeys(dissociated.rows, faults, targets, i + 1);
      }
      DissociateAllKeysTurn(rows, dissociated, DissociateAllFrom(rows, faults, targets, i), targets, i);
    }
  }

  /** One turn of `dissociateAll`: what one `dissociate` and the rest of the loop do to the keys. */
  lemma DissociateAllKeysTurn(rows: seq<Row>, step: Step, r: Step, listed: seq<Association>, i: nat)
    requires i < |listed|
    requires KeySubset(step.rows, rows)
    requires forall s, t :: HasKey(rows, s, t) && !(listed[i].source == Some(s) && listed[i].target == Some(t)) ==> HasKey(step.rows, s, t)
    requires step.outcome == Returned(true) && listed[i].source.Some? && listed[i].target.Some? ==>
      !HasKey(step.rows, listed[i].source.value, listed[i].target.value)
    requires step.outcome != Returned(true) ==> r == step
    requires step.outcome == Returned(true) ==>
      && KeySubset(r.rows, step.rows)
      && KeepsUnlisted(step.rows, r.rows, listed, i + 1)
      && (r.outcome == Returned(true) ==> DropsListed(r.rows, listed, i + 1))
    ensures KeySubset(r.rows, rows) && KeepsUnlisted(rows, r.rows, listed, i)
    ensures r.outcome == Returned(true) ==> DropsListed(r.rows, listed, i)
  {
    forall s, t | HasKey(rows, s, t) && (forall k :: i <= k < |listed| ==> !(listed[k].source == Some(s) && listed[k].target == Some(t)))
      ensures HasKey(r.rows, s, t)
    {
      assert !(listed[i].source == Some(s) && listed[i].target == Some(t));
      assert HasKey(step.rows, s, t);
    }
    if r.outcome == Returned(true) {
      forall k | i <= k < |listed| && listed[k].source.Some? && listed[k].target.Some?
        ensures !HasKey(r.rows, listed[k].source.value, listed[k].target.value)
      {
        if k == i && step.outcome == Returned(true) {
          assert !HasKey(step.rows, listed[k].source.value, listed[k].target.value);
        }
      }
    }
  }

  /**
   * A successful `save` synchronises the scope with the cached result: every
   * listed association has its row; every row of the scope whose target is
   * not listed is deleted; other scopes keep their rows; and no row appears
   * that was neither there nor listed.
   */
  lemma SaveSynchronises(rows: seq<Row>, faults: Faults, listed: seq<Association>, source: int)
    requires UniqueKeys(rows)
    ensures
      var r := Save(rows, faults, Some(listed), Some(source));
      r.outcome == Returned(true) ==>
        && (forall a :: a in listed ==> a.source.Some? && a.target.Some? && HasKey(r.rows, a.source.value, a.target.value))
        && (forall row :: row in rows && row.source == source && (forall a :: a in listed ==> a.target != Some(row.target)) ==>
              !HasKey(r.rows, row.source, row.target))
        && (forall s, t :: HasKey(rows, s, t) && s != source ==> HasKey(r.rows, s, t))
        && (forall s, t :: HasKey(r.rows, s, t) ==>
              HasKey(rows, s, t) || exists a :: a in listed && a.source == Some(s) && a.target == Some(t))
  {
    var existing := ExistingAssociations(rows, Some(source));
    var associated := AssociateAllFrom(rows, faults, listed, existing, 0);
    AssociateAllKeys(rows, faults, listed, existing, 0);
    AssociateAllRemaining(rows, faults, listed, existing, 0);
    if associated.step.outcome == Returned(true) {
      var remaining := associated.remaining;
      var dissociated := DissociateAllFrom(associated.step.rows, faults, remaining, 0);
      DissociateAllKeys(associated.step.rows, faults, remaining, 0);
      if dissociated.outcome == Returned(true) {
        Synchronised(rows, source, listed, existing, associated.step.rows, remaining, dissociated.rows);
      }
    }
  }

  /**
   * The associate pass followed by the dissociate pass of the existing
   * associations it left leaves the scope holding exactly the listed ones.
   */
  lemma Synchronised(rows: seq<Row>, source: int, listed: seq<Association>, existing: seq<Association>,
                     mid: seq<Row>, remaining: seq<Association>, after: seq<Row>)
    requires forall a :: a in existing ==> a.source == Some(source)
    requires forall row :: row in rows && row.source == source ==> RecordOf(row) in existing
    requires KeySubset(rows, mid) && AddsOnlyListed(rows, mid, listed, 0) && HoldsListed(mid, listed, 0)
    requires forall a :: a in remaining ==> a in existing
    requires forall a :: a in existing && TargetNotListed(a, listed, 0) ==> a in remaining
    requires forall a :: a in remaining ==> TargetNotListed(a, listed, 0)
    requires KeySubset(after, mid) && KeepsUnlisted(mid, after, remaining, 0) && DropsListed(after, remaining, 0)
    ensures forall a :: a in listed ==> a.source.Some? && a.target.Some? && HasKey(after, a.source.value, a.target.value)
    ensures forall row :: row in rows && row.source == source && (forall a :: a in listed ==> a.target != Some(row.target)) ==>
      !HasKey(after, row.source, row.target)
    ensures forall s, t :: HasKey(rows, s, t) && s != source ==> HasKey(after, s, t)
    ensures forall s, t :: HasKey(after, s, t) ==>
      HasKey(rows, s, t) || exists a :: a in listed && a.source == Some(s) && a.target == Some(t)
  {
    forall a | a in listed
      ensures a.source.Some? && a.target.Some? && HasKey(after, a.source.value, a.target.value)
    {
      var k :| 0 <= k < |listed| && listed[k] == a;
      forall j | 0 <= j < |remaining| ensures !(remaining[j].source == a.source && remaining[j].target == a.target) {
        assert remaining[j] in remaining;
      }
    }
    forall row | row in rows && row.source == source && (forall a :: a in listed ==> a.target != Some(row.target))
      ensures !HasKey(after, row.source, row.target)
    {
      var record := RecordOf(row);
      assert record in existing;
      forall k | 0 <= k < |listed| ensures listed[k].target != record.target {
        assert listed[k] in listed;
      }
      assert record in remaining;
      var j :| 0 <= j < |remaining| && remaining[j] == record;
    }
    forall s, t | HasKey(rows, s, t) && s != source ensures HasKey(after, s, t) {
      forall j | 0 <= j < |remaining| ensures !(remaining[j].source == Some(s) && remaining[j].target == Some(t)) {
        assert remaining[j] in existing;
      }
    }
    forall s, t | HasKey(after, s, t)
      ensures HasKey(rows, s, t) || exists a :: a in listed && a.source == Some(s) && a.target == Some(t)
    {
      if !HasKey(rows, s, t) {
        var k :| 0 <= k < |listed| && listed[k].source == Some(s) && listed[k].target == Some(t);
        assert listed[k] in listed;
      }
    }
  }
}
