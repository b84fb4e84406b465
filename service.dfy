/**
 * The association service as a class over the store it writes to. Each
 * method takes the steps of the PHP method of the same name, with
 * `insertSequential` as written (its `range($startingSortOrder,
 * count($order))` included), and its contract ties the outcome and the new
 * store to the function of the same name in `ServiceSpec`, where the
 * properties of each operation are proved.
 */
module Service {
  import opened OrderMaps
  import opened SequentialOrder
  import opened SequentialOrderProps
  import opened AssociationStore
  import opened Queries
  import Spec = ServiceSpec

  class SortableAssociations {
    /** The association table. */
    var rows: seq<Row>
    /** How the store fails. */
    const faults: Spec.Faults

    ghost predicate Valid()
      reads this
    {
      UniqueKeys(rows)
    }

    constructor(rows: seq<Row>, faults: Spec.Faults)
      requires UniqueKeys(rows)
      ensures Valid() && this.rows == rows && this.faults == faults
    {
      this.rows := rows;
      this.faults := faults;
    }

    /*******************************************
     * STORE
     *******************************************/

    /** `$record->save()`. */
    method SaveRecord(record: Association) returns (outcome: Spec.Outcome)
      requires Valid() && record.sortOrder.Some?
      modifies this
      ensures Valid() && Spec.Step(outcome, rows) == Spec.SaveRecord(old(rows), faults, record)
    {
      if record.source.None? || record.target.None? {
        return Spec.Returned(false);
      }
      if record.target.value in faults.raising {
        return Spec.Raised;
      }
      rows := Upsert(rows, RowOf(record, record.sortOrder.value));
      return Spec.Returned(true);
    }

    /** `$record->delete()` of a row known to exist. */
    method Delete(source: int, target: int) returns (outcome: Spec.Outcome)
      requires Valid()
      modifies this
      ensures Valid() && Spec.Step(outcome, rows) == Spec.Delete(old(rows), faults, source, target)
    {
      if target in faults.vetoed {
        return Spec.Returned(false);
      }
      if target in faults.raising {
        return Spec.Raised;
      }
      rows := DeleteRow(rows, source, target);
      return Spec.Returned(true);
    }

    /*******************************************
     * RAW SORT ORDER
     *******************************************/

    /** `reOrder`: one `UPDATE` per entry of `updates`, in order. */
    method ReOrder(source: int, updates: OrderMap<int>) returns (outcome: Spec.Outcome)
      requires Valid() && |updates.keys| == |updates.orders|
      modifies this
      ensures Valid() && Spec.Step(outcome, rows) == Spec.ReOrder(old(rows), faults, source, updates)
    {
      ghost var goal := Spec.ReOrder(rows, faults, source, updates);
      var i := 0;
      while i < |updates.keys|
        invariant 0 <= i <= |updates.keys| && Valid()
        invariant Spec.ReOrderFrom(rows, faults, source, updates, i) == goal
        decreases |updates.keys| - i
      {
        if updates.keys[i] in faults.raising {
          return Spec.Raised;
        }
        UpdateOrderKeepsKeys(rows, source, updates.keys[i], updates.orders[i]);
        rows := UpdateOrder(rows, source, updates.keys[i], updates.orders[i]);
        i := i + 1;
      }
      return Spec.Returned(true);
    }

    /** `autoReOrder`: renumbers the scope 1..N in read order. */
    method AutoReOrder(source: int) returns (outcome: Spec.Outcome)
      requires Valid()
      modifies this
      ensures Valid() && Spec.Step(outcome, rows) == Spec.AutoReOrder(old(rows), faults, source)
    {
      var sortOrder := SortOrderMap(rows, source);
      if |sortOrder.keys| == 0 {
        return Spec.Returned(true);
      }
      outcome := ReOrder(source, Spec.Repack(sortOrder));
    }

    /*******************************************
     * RECORD SORT ORDER
     *******************************************/

    /**
     * `existingAssociation`: whether the record's row exists and, when asked
     * to, the record with its order filled in by `ensureSortOrder`.
     */
    method ExistingAssociation(record: Association, ensureSortOrder: bool) returns (existing: Option<Row>, updated: Association)
      ensures existing == Spec.LookupRecord(rows, record)
      ensures existing.Some? ==> existing.value in rows
      ensures !ensureSortOrder ==> updated == record
      ensures ensureSortOrder ==> updated.sortOrder.Some? && updated.source == record.source && updated.target == record.target
      ensures ensureSortOrder ==> updated == Spec.EnsureSortOrder(rows, record, existing)
    {
      existing := Spec.LookupRecord(rows, record);
      updated := record;
      if ensureSortOrder && record.sortOrder.None? {
        if existing.Some? {
          updated := record.(sortOrder := Some(existing.value.sortOrder));
        } else {
          updated := record.(sortOrder := Some(Spec.NextSortOrderOf(rows, record.source)));
        }
      }
    }

    /** `applySortOrder` with `insertIntoOrder`, for a record whose row was just saved. */
    method ApplySortOrder(record: Association) returns (outcome: Spec.Outcome, saved: Association)
      requires Valid() && record.source.Some? && record.target.Some? && record.sortOrder.Some?
      requires HasKey(rows, record.source.value, record.target.value)
      modifies this
      ensures Valid() && (Spec.Step(outcome, rows), saved) == Spec.ApplySortOrder(old(rows), faults, record)
    {
      var source, target := record.source.value, record.target.value;
      var sortOrder := SortOrderMap(rows, source);
      ReadMapSize(rows, source);
      saved := record;
      if |sortOrder.keys| < record.sortOrder.value {
        saved := record.(sortOrder := Some(|sortOrder.keys|));
      }
      var row := Lookup(rows, source, target).value;
      ReadMapHasRow(rows, row);
      AsWrittenSentinels(sortOrder, target, saved.sortOrder.value);
      ghost var goal := Spec.ApplySortOrder(rows, faults, record);
      assert saved.sortOrder.value == Spec.Clamp(record.sortOrder.value, |sortOrder.keys|);
      var order := InsertSequentialAsWritten(sortOrder, target, saved.sortOrder.value);
      if order.InPlace? {
        return Spec.Returned(true), saved;
      }
      if order.CombineFailed? {
        return Spec.Raised, saved;
      }
      assert goal.0 == Spec.ReOrder(rows, faults, source, order.updates);
      outcome := ReOrder(source, order.updates);
    }

    /*******************************************
     * ASSOCIATE / DISSOCIATE
     *******************************************/

    /** `associate`: returns the outcome and the record as the call leaves it. */
    method Associate(record: Association, reOrder: bool) returns (outcome: Spec.Outcome, saved: Association)
      requires Valid()
      modifies this
      ensures Valid() && (Spec.Step(outcome, rows), saved) == Spec.Associate(old(rows), faults, record, reOrder)
    {
      var existing, current := ExistingAssociation(record, true);
      var reOrder := reOrder;
      if existing.Some? {
        reOrder := true;
      }
      saved := current;
      outcome := SaveRecord(current);
      if outcome != Spec.Returned(true) {
        return;
      }
      if reOrder {
        assert RowOf(current, current.sortOrder.value) in rows;
        outcome, saved := ApplySortOrder(current);
      }
    }

    /** `dissociate`. */
    method Dissociate(record: Association, reOrder: bool) returns (outcome: Spec.Outcome)
      requires Valid()
      modifies this
      ensures Valid() && Spec.Step(outcome, rows) == Spec.Dissociate(old(rows), faults, record, reOrder)
    {
      var existing, _ := ExistingAssociation(record, false);
      if existing.None? {
        return Spec.Returned(true);
      }
      var row := existing.value;
      outcome := Delete(row.source, row.target);
      if outcome != Spec.Returned(true) {
        return;
      }
      if reOrder {
        var renumbered := AutoReOrder(row.source);
        if renumbered == Spec.Raised {
          return Spec.Raised;
        }
      }
      return Spec.Returned(true);
    }

    /*******************************************
     * ASSOCIATE / DISSOCIATE MANY
     *******************************************/

    /**
     * `associateAll`: saves each association without reordering, taking its
     * target out of the existing associations; returns what is left of them.
     */
    method AssociateAll(associations: seq<Association>, existing: seq<Association>) returns (outcome: Spec.Outcome, remaining: seq<Association>)
      requires Valid()
      modifies this
      ensures Valid() && Spec.Bulk(Spec.Step(outcome, rows), remaining) == Spec.AssociateAllFrom(old(rows), faults, associations, existing, 0)
    {
      remaining := existing;
      ghost var goal := Spec.AssociateAllFrom(rows, faults, associations, existing, 0);
      var i := 0;
      while i < |associations|
        invariant 0 <= i <= |associations| && Valid()
        invariant Spec.AssociateAllFrom(rows, faults, associations, remaining, i) == goal
        decreases |associations| - i
      {
        var association := associations[i];
        remaining := Spec.RemoveTarget(remaining, association.target);
        var associated, _ := Associate(association, false);
        if associated != Spec.Returned(true) {
          return associated, remaining;
        }
        i := i + 1;
      }
      return Spec.Returned(true), remaining;
    }

    /** `dissociateAll`: dissociates each with reordering; stops at the first failure. */
    method DissociateAll(targets: seq<Association>) returns (outcome: Spec.Outcome)
      requires Valid()
      modifies this
      ensures Valid() && Spec.Step(outcome, rows) == Spec.DissociateAllFrom(old(rows), faults, targets, 0)
    {
      ghost var goal := Spec.DissociateAllFrom(rows, faults, targets, 0);
      var i := 0;
      while i < |targets|
        invariant 0 <= i <= |targets| && Valid()
        invariant Spec.DissociateAllFrom(rows, faults, targets, i) == goal
        decreases |targets| - i
      {
        var dissociated := Dissociate(targets[i], true);
        if dissociated != Spec.Returned(true) {
          return dissociated;
        }
        i := i + 1;
      }
      return Spec.Returned(true);
    }

    /**
     * `save`: nothing to do without a cached result; otherwise the associates
     * and then the dissociates run in one transaction, which a failure or an
     * exception rolls back.
     */
    method Save(query: AssociationQuery) returns (outcome: Spec.Outcome)
      requires Valid()
      modifies this
      ensures Valid() && Spec.Step(outcome, rows) == Spec.Save(old(rows), faults, query.cachedResult, ScopeOf(query.source))
    {
      if query.cachedResult.None? {
        return Spec.Returned(true);
      }
      var existing := Spec.ExistingAssociations(rows, ScopeOf(query.source));
      var snapshot := rows;
      var remaining;
      outcome, remaining := AssociateAll(query.cachedResult.value, existing);
      if outcome == Spec.Returned(true) {
        outcome := DissociateAll(remaining);
      }
      if outcome != Spec.Returned(true) {
        rows := snapshot;
      }
    }
  }
}
