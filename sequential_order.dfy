/**
 * The sequential-order algorithm: `ensureSequential`, the repair pass that
 * gives every unset (zero) sort order a value, and `insertSequential`, which
 * computes the new sort orders of the entries affected when one key is moved
 * to a requested position.
 *
 * `insertSequential` is written twice in the source, once in the service
 * (src/services/SortableAssociations.php) and once in the trait
 * (src/services/traits/SequentialOrderTrait.php), which first runs
 * `ensureSequential` on its own copy of the array. Both copies share the
 * same steps up to the final renumbering, modelled once here as `PlanInsert`.
 * The final step is modelled as written (`InsertSequentialAsWritten`, whose
 * `range($startingSortOrder, count($order))` is the wrong range whenever the
 * affected window does not start at index 0) and as evidently intended
 * (`InsertSequential`, `range($startingSortOrder, $startingSortOrder + count($order) - 1)`).
 */
module SequentialOrder {
  import opened OrderMaps

  /*******************************************
   * ensureSequential
   *******************************************/

  /**
   * One left-to-right pass with a running counter: a zero (unset) order takes
   * the counter, which then advances; a non-zero order is kept and pushes the
   * counter past it only when it is strictly greater than the counter.
   */
  function NormalizeFrom(orders: seq<int>, counter: int): (r: seq<int>)
    decreases |orders|
  {
    if |orders| == 0 then []
    else
      var order := if orders[0] != 0 then orders[0] else counter;
      var next :=
        if orders[0] == 0 then counter + 1
        else if order > counter then order + 1
        else counter;
      [order] + NormalizeFrom(orders[1..], next)
  }

  /** The values `ensureSequential` leaves in the array; the counter starts at 1. One value per entry. */
  function Normalize(orders: seq<int>): (r: seq<int>)
    ensures |r| == |orders|
  {
    NormalizeLength(orders, 1);
    NormalizeFrom(orders, 1)
  }

  /**
   * `ensureSequential(array &$sourceArray)`: rewrites the values of the array
   * in place (a `foreach` by reference); the keys and their order are not
   * touched, which is why only the values are passed here.
   */
  method EnsureSequential(orders: array<int>)
    modifies orders
    ensures orders[..] == Normalize(old(orders[..]))
  {
    var counter := 1;
    var i := 0;
    while i < orders.Length
      invariant 0 <= i <= orders.Length
      invariant orders[i..] == old(orders[..])[i..]
      invariant orders[..i] + NormalizeFrom(orders[i..], counter) == Normalize(old(orders[..]))
    {
      ghost var before := orders[..];
      ghost var start := counter;
      var order := orders[i];
      if order == 0 {
        order := counter;
        counter := counter + 1;
      }
      orders[i] := order;
      if order > counter {
        counter := order + 1;
      }
      NormalizeStep(before[..i], before[i..], start, order, counter);
      assert orders[..i + 1] == before[..i] + [order];
      assert orders[i + 1..] == before[i + 1..];
      assert before[i..][1..] == before[i + 1..];
      i := i + 1;
    }
    assert orders[..] == orders[..i];
  }

  /** One step of the pass: the next value is settled and the counter moves on. */
  lemma NormalizeStep(done: seq<int>, rest: seq<int>, counter: int, order: int, next: int)
    requires |rest| > 0
    requires order == if rest[0] != 0 then rest[0] else counter
    requires next == if rest[0] == 0 then counter + 1 else if order > counter then order + 1 else counter
    ensures done + NormalizeFrom(rest, counter) == (done + [order]) + NormalizeFrom(rest[1..], next)
  {
  }

  /*******************************************
   * insertSequential
   *******************************************/

  /**
   * `$affectedIndex`: the first index whose order may change. It never lies
   * after the moved key, and it is always below `targetOrder`, so the
   * starting sort order is always `$affectedIndex + 1`.
   */
  function AffectedIndex(index: nat, targetOrder: int): (a: int)
    ensures a <= index && a < targetOrder
    ensures targetOrder >= 1 ==> a >= 0
    ensures a == index || a == targetOrder - 1
  {
    if index >= targetOrder then targetOrder - 1 else index
  }

  /** The affected slice of `m` (from `$affectedIndex`, counted from the end when negative), without the moved key. */
  function Affected<K(==)>(m: OrderMap<K>, key: K, targetOrder: int): Removal<K>
    requires IsOrderMap(m) && key in m.keys
  {
    var index := IndexOf(m.keys, key);
    RemoveKey(DropMap(m, SliceStart(|m.keys|, AffectedIndex(index, targetOrder))), key)
  }

  /**
   * Where the moved key goes among the remaining affected entries: before the
   * first one whose order equals `targetOrder`, or after it when the key
   * moves forward; None when no remaining entry has that order.
   */
  function Position(restOrders: seq<int>, targetOrder: int, index: nat): (r: Option<nat>)
    ensures r.None? <==> targetOrder !in restOrders
    ensures r.Some? ==> r.value <= |restOrders|
  {
    match Search(restOrders, targetOrder)
    case None => None
    case Some(found) => Some(if index < targetOrder then found + 1 else found)
  }

  /**
   * The keys of `$order`: `[$targetKey => $targetOrder]`, with the remaining
   * entries before `position` put in front of it and the others after it
   * (two array unions); just the target when there is no position.
   */
  function Assemble<K(==)>(restKeys: seq<K>, key: K, position: Option<nat>): seq<K>
    requires position.Some? ==> position.value <= |restKeys|
  {
    match position
    case None => [key]
    case Some(pos) =>
      var front := if pos > 0 then UnionKeys(restKeys[..pos], [key]) else [key];
      UnionKeys(front, restKeys[pos..])
  }

  /** The assembled keys always hold at least the moved key's slot. */
  lemma AssembleNonEmpty<K>(restKeys: seq<K>, key: K, position: Option<nat>)
    requires position.Some? ==> position.value <= |restKeys|
    ensures |Assemble(restKeys, key, position)| >= 1
  {
    if position.Some? {
      var pos := position.value;
      var front := if pos > 0 then UnionKeys(restKeys[..pos], [key]) else [key];
      UnionKeysLonger(restKeys[..pos], [key]);
      UnionKeysLonger(front, restKeys[pos..]);
    }
  }

  lemma AssembleSplices<K>(restKeys: seq<K>, key: K, pos: nat)
    requires pos <= |restKeys| && Distinct(restKeys) && key !in restKeys
    ensures Assemble(restKeys, key, Some(pos)) == restKeys[..pos] + [key] + restKeys[pos..]
  {
    var front, back := restKeys[..pos], restKeys[pos..];
    assert restKeys == front + back;
    DistinctSplit(restKeys, pos);
    assert key !in back;
    var joined := front + [key];
    if pos > 0 {
      assert key !in front;
      UnionOfDisjoint(front, [key]);
    } else {
      assert joined == [key];
    }
    var unioned := if pos > 0 then UnionKeys(restKeys[..pos], [key]) else [key];
    assert unioned == joined;
    UnionOfDisjoint(joined, back);
    assert Assemble(restKeys, key, Some(pos)) == UnionKeys(unioned, back);
  }

  datatype Plan<K> = Absent | AlreadyPlaced | Reposition(start: int, keys: seq<K>)

  /**
   * The steps both copies of `insertSequential` share: `false` when the key is
   * not in the array; `true` when the key's order, read from the affected
   * slice and cast to int (0 when the key is outside the slice), already
   * equals `targetOrder`; otherwise the starting sort order and the keys of
   * the assembled `$order`.
   */
  function PlanInsert<K(==)>(m: OrderMap<K>, key: K, targetOrder: int): (p: Plan<K>)
    requires IsOrderMap(m)
    ensures p.Absent? <==> key !in m.keys
  {
    match Search(m.keys, key)
    case None => Absent
    case Some(index) =>
      var affectedIndex := AffectedIndex(index, targetOrder);
      var affected := Affected(m, key, targetOrder);
      var currentPosition := affected.value.GetOr(0);
      if currentPosition == targetOrder then AlreadyPlaced
      else
        var startingSortOrder := if affectedIndex < targetOrder then affectedIndex + 1 else targetOrder;
        Reposition(startingSortOrder,
          Assemble(affected.rest.keys, key, Position(affected.rest.orders, targetOrder, index)))
  }

  /** The outcomes of `insertSequential`: `false`, `true`, the map of new orders, or a failed `array_combine`. */
  datatype Reorder<K> = NotFound | InPlace | Updates(updates: OrderMap<K>) | CombineFailed

  /**
   * `insertSequential` as written: the new orders are
   * `range($startingSortOrder, count($order))`, which only has one number per
   * key when the window starts at index 0.
   */
  function InsertSequentialAsWritten<K(==)>(m: OrderMap<K>, key: K, targetOrder: int): (r: Reorder<K>)
    requires IsOrderMap(m)
  {
    match PlanInsert(m, key, targetOrder)
    case Absent => NotFound
    case AlreadyPlaced => InPlace
    case Reposition(start, order) =>
      match FlipCombine(PhpRange(start, |order|), order)
      case None => CombineFailed
      case Some(updates) => Updates(updates)
  }

  /**
   * `insertSequential` as evidently intended: the assembled keys are
   * renumbered consecutively from the starting sort order,
   * `range($startingSortOrder, $startingSortOrder + count($order) - 1)`.
   */
  function InsertSequential<K(==)>(m: OrderMap<K>, key: K, targetOrder: int): (r: Reorder<K>)
    requires IsOrderMap(m)
  {
    match PlanInsert(m, key, targetOrder)
    case Absent => NotFound
    case AlreadyPlaced => InPlace
    case Reposition(start, order) =>
      match FlipCombine(PhpRange(start, start + |order| - 1), order)
      case None => CombineFailed
      case Some(updates) => Updates(updates)
  }

  /** The array after `ensureSequential`: same keys in the same order, normalised values. */
  function Normalized<K(==)>(m: OrderMap<K>): OrderMap<K> {
    OrderMap(m.keys, Normalize(m.orders))
  }

  /**
   * The trait's `insertSequential`: the same algorithm run on a normalised
   * copy. PHP passes the array by value, so the caller's array is untouched;
   * here `m` is a value and nothing but the result comes back.
   */
  function TraitInsertSequential<K(==)>(m: OrderMap<K>, key: K, targetOrder: int): (r: Reorder<K>)
    requires IsOrderMap(m)
  {
    NormalizedIsOrderMap(m);
    InsertSequentialAsWritten(Normalized(m), key, targetOrder)
  }

  lemma NormalizedIsOrderMap<K>(m: OrderMap<K>)
    requires IsOrderMap(m)
    ensures IsOrderMap(Normalized(m))
  {
    NormalizeLength(m.orders, 1);
  }

  lemma {:induction false} NormalizeLength(orders: seq<int>, counter: int)
    ensures |NormalizeFrom(orders, counter)| == |orders|
    decreases |orders|
  {
    if |orders| > 0 {
      var order := if orders[0] != 0 then orders[0] else counter;
      var next := if orders[0] == 0 then counter + 1 else if order > counter then order + 1 else counter;
      NormalizeLength(orders[1..], next);
    }
  }
}
