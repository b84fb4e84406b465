/**
 * Properties of `ensureSequential` and of `insertSequential` on any array,
 * dense or not.
 */
module SequentialOrderProps {
  import opened OrderMaps
  import opened SequentialOrder

  /*******************************************
   * ensureSequential
   *******************************************/

  /** A non-zero order is never rewritten, and the array keeps its length. */
  lemma {:induction false} NormalizeKeepsNonZero(orders: seq<int>, counter: int)
    ensures |NormalizeFrom(orders, counter)| == |orders|
    ensures forall i :: 0 <= i < |orders| && orders[i] != 0 ==> NormalizeFrom(orders, counter)[i] == orders[i]
    decreases |orders|
  {
    if |orders| > 0 {
      var order := if orders[0] != 0 then orders[0] else counter;
      var next := if orders[0] == 0 then counter + 1 else if order > counter then order + 1 else counter;
      NormalizeKeepsNonZero(orders[1..], next);
      var r := NormalizeFrom(orders, counter);
      assert r == [order] + NormalizeFrom(orders[1..], next);
      forall i | 1 <= i < |orders| && orders[i] != 0 ensures r[i] == orders[i] {
        assert orders[1..][i - 1] == orders[i];
      }
    }
  }

  /**
   * Zero entries: each receives at least the starting counter, at least every
   * value written before it, and strictly more than every earlier zero entry.
   */
  lemma {:induction false} NormalizeZeroEntries(orders: seq<int>, counter: int)
    ensures |NormalizeFrom(orders, counter)| == |orders|
    ensures forall j :: 0 <= j < |orders| && orders[j] == 0 ==> NormalizeFrom(orders, counter)[j] >= counter
    ensures forall i, j :: 0 <= i < j < |orders| && orders[j] == 0 ==>
      NormalizeFrom(orders, counter)[i] <= NormalizeFrom(orders, counter)[j]
    ensures forall i, j :: 0 <= i < j < |orders| && orders[i] == 0 && orders[j] == 0 ==>
      NormalizeFrom(orders, counter)[i] < NormalizeFrom(orders, counter)[j]
    decreases |orders|
  {
    NormalizeLength(orders, counter);
    if |orders| > 0 {
      var order := if orders[0] != 0 then orders[0] else counter;
      var next := if orders[0] == 0 then counter + 1 else if order > counter then order + 1 else counter;
      assert next >= counter && next >= order;
      assert orders[0] == 0 ==> next > order;
      var tail := orders[1..];
      NormalizeZeroEntries(tail, next);
      var r := NormalizeFrom(orders, counter);
      var rt := NormalizeFrom(tail, next);
      assert r == [order] + rt;
      forall j | 1 <= j < |orders| && orders[j] == 0 ensures r[j] >= next {
        assert tail[j - 1] == 0 && r[j] == rt[j - 1];
      }
      forall i, j | 0 <= i < j < |orders| && orders[j] == 0 ensures r[i] <= r[j] {
        assert tail[j - 1] == 0 && r[j] == rt[j - 1];
        if i > 0 {
          assert r[i] == rt[i - 1];
        }
      }
      forall i, j | 0 <= i < j < |orders| && orders[i] == 0 && orders[j] == 0 ensures r[i] < r[j] {
        assert tail[j - 1] == 0 && r[j] == rt[j - 1];
        if i > 0 {
          assert tail[i - 1] == 0 && r[i] == rt[i - 1];
        }
      }
    }
  }

  /** After `ensureSequential` no order is zero: every unset entry has received a positive counter value. */
  lemma NormalizeLeavesNoZero(orders: seq<int>)
    ensures |Normalize(orders)| == |orders|
    ensures forall i :: 0 <= i < |orders| ==> Normalize(orders)[i] != 0
  {
    NormalizeKeepsNonZero(orders, 1);
    NormalizeZeroEntries(orders, 1);
  }

  /** A second `ensureSequential` pass changes nothing. */
  lemma NormalizeIdempotent(orders: seq<int>)
    ensures Normalize(Normalize(orders)) == Normalize(orders)
  {
    var once := Normalize(orders);
    NormalizeLeavesNoZero(orders);
    NormalizeKeepsNonZero(once, 1);
  }

  /** The pass is only a repair: an order equal to the counter does not advance it, so duplicates survive. */
  lemma NormalizeKeepsDuplicates()
    ensures Normalize([1, 0]) == [1, 1]
    ensures Normalize([0, 1]) == [1, 1]
  {
    assert NormalizeFrom([0], 1) == [1];
    assert NormalizeFrom([1], 2) == [1];
  }

  /** An array whose orders are all non-zero (a dense 1..N one in particular) is left as it is. */
  lemma NormalizeFixesNonZero(orders: seq<int>)
    requires forall i :: 0 <= i < |orders| ==> orders[i] != 0
    ensures Normalize(orders) == orders
  {
    NormalizeKeepsNonZero(orders, 1);
  }

  /*******************************************
   * insertSequential on any array
   *******************************************/

  /** The first index of the affected window: `array_slice`'s start for `$affectedIndex`. */
  function WindowStart<K(==)>(m: OrderMap<K>, key: K, targetOrder: int): (s: nat)
    requires IsOrderMap(m) && key in m.keys
    ensures s <= |m.keys|
    ensures targetOrder >= 1 ==>
      var index := IndexOf(m.keys, key);
      s == (if index + 1 < targetOrder then index else targetOrder - 1)
  {
    SliceStart(|m.keys|, AffectedIndex(IndexOf(m.keys, key), targetOrder))
  }

  /** `PlanInsert` once the key is known to be present and not already at the requested order. */
  lemma PlanRepositions<K>(m: OrderMap<K>, key: K, targetOrder: int)
    requires IsOrderMap(m) && key in m.keys
    requires Affected(m, key, targetOrder).value.GetOr(0) != targetOrder
    ensures
      var index := IndexOf(m.keys, key);
      var rest := Affected(m, key, targetOrder).rest;
      PlanInsert(m, key, targetOrder)
        == Reposition(AffectedIndex(index, targetOrder) + 1, Assemble(rest.keys, key, Position(rest.orders, targetOrder, index)))
  {
    assert Search(m.keys, key) == Some(IndexOf(m.keys, key));
  }

  /** The corrected copy's result for a repositioning plan: its keys numbered from the starting sort order. */
  lemma CorrectedFromPlan<K>(m: OrderMap<K>, key: K, targetOrder: int)
    requires IsOrderMap(m) && PlanInsert(m, key, targetOrder).Reposition?
    ensures
      var p := PlanInsert(m, key, targetOrder);
      InsertSequential(m, key, targetOrder) == Updates(OrderMap(p.keys, PhpRange(p.start, p.start + |p.keys| - 1)))
  {
    var index := Search(m.keys, key).value;
    var affected := Affected(m, key, targetOrder);
    AssembleNonEmpty(affected.rest.keys, key, Position(affected.rest.orders, targetOrder, index));
  }

  /** The same, for a plan already known: its keys numbered from `start` to `stop`. */
  lemma CorrectedFromPlanAt<K>(m: OrderMap<K>, key: K, targetOrder: int, start: int, keys: seq<K>, stop: int)
    requires IsOrderMap(m) && PlanInsert(m, key, targetOrder) == Reposition(start, keys)
    requires stop == start + |keys| - 1
    ensures InsertSequential(m, key, targetOrder) == Updates(OrderMap(keys, PhpRange(start, stop)))
  {
    CorrectedFromPlan(m, key, targetOrder);
  }

  /** The value of `key` read from the affected slice, as `(int)ArrayHelper::remove` gives it. */
  lemma CurrentPositionInWindow<K>(m: OrderMap<K>, key: K, targetOrder: int)
    requires IsOrderMap(m) && key in m.keys && targetOrder >= 1
    ensures Affected(m, key, targetOrder).value == Some(m.orders[IndexOf(m.keys, key)])
  {
    var index := IndexOf(m.keys, key);
    var from := WindowStart(m, key, targetOrder);
    var slice := DropMap(m, from);
    assert slice.keys[index - from] == key;
    IndexOfDistinct(slice.keys, index - from);
  }

  /**
   * Both copies return `false` exactly when the key is absent, and for a
   * requested order of at least 1 return `true` exactly when the key's
   * current order already equals it.
   */
  lemma SentinelOutcomes<K>(m: OrderMap<K>, key: K, targetOrder: int)
    requires IsOrderMap(m)
    ensures InsertSequentialAsWritten(m, key, targetOrder).NotFound? <==> key !in m.keys
    ensures InsertSequential(m, key, targetOrder).NotFound? <==> key !in m.keys
    ensures key in m.keys && targetOrder >= 1 ==>
      && (InsertSequentialAsWritten(m, key, targetOrder).InPlace? <==> m.orders[IndexOf(m.keys, key)] == targetOrder)
      && (InsertSequential(m, key, targetOrder).InPlace? <==> m.orders[IndexOf(m.keys, key)] == targetOrder)
  {
    if key in m.keys && targetOrder >= 1 {
      CurrentPositionInWindow(m, key, targetOrder);
    }
  }

  /** The code-as-written half of `SentinelOutcomes`; when its combine succeeds each key gets one number. */
  lemma AsWrittenSentinels<K>(m: OrderMap<K>, key: K, targetOrder: int)
    requires IsOrderMap(m)
    ensures InsertSequentialAsWritten(m, key, targetOrder).NotFound? <==> key !in m.keys
    ensures key in m.keys && targetOrder >= 1 ==>
      (InsertSequentialAsWritten(m, key, targetOrder).InPlace? <==> m.orders[IndexOf(m.keys, key)] == targetOrder)
    ensures
      var r := InsertSequentialAsWritten(m, key, targetOrder);
      r.Updates? ==> |r.updates.keys| == |r.updates.orders|
  {
    SentinelOutcomes(m, key, targetOrder);
  }

  /**
   * The trait's copy answers on the normalised array: `false` exactly when
   * the key is absent, `true` exactly when the normalised order already
   * equals the requested one, which for a key with a stored non-zero order
   * is that stored order.
   */
  lemma TraitSentinelOutcomes<K>(m: OrderMap<K>, key: K, targetOrder: int)
    requires IsOrderMap(m)
    ensures TraitInsertSequential(m, key, targetOrder).NotFound? <==> key !in m.keys
    ensures key in m.keys && targetOrder >= 1 ==>
      (TraitInsertSequential(m, key, targetOrder).InPlace? <==> Normalize(m.orders)[IndexOf(m.keys, key)] == targetOrder)
    ensures key in m.keys && targetOrder >= 1 && m.orders[IndexOf(m.keys, key)] != 0 ==>
      (TraitInsertSequential(m, key, targetOrder).InPlace? <==> m.orders[IndexOf(m.keys, key)] == targetOrder)
  {
    NormalizedIsOrderMap(m);
    var n := Normalized(m);
    var r := TraitInsertSequential(m, key, targetOrder);
    assert r == InsertSequentialAsWritten(n, key, targetOrder);
    AsWrittenSentinels(n, key, targetOrder);
    if key in m.keys && targetOrder >= 1 {
      var index := IndexOf(m.keys, key);
      assert n.keys == m.keys;
      assert r.InPlace? <==> n.orders[index] == targetOrder;
      NormalizeKeepsNonZero(m.orders, 1);
    }
  }

  /**
   * The assembled keys: the moved key and the other keys of the window,
   * each once, in their old relative order; only the moved key when no other
   * entry of the window holds the requested order.
   */
  lemma RepositionShape<K>(m: OrderMap<K>, key: K, targetOrder: int)
    requires IsOrderMap(m)
    requires PlanInsert(m, key, targetOrder).Reposition?
    ensures key in m.keys
    ensures
      var p := PlanInsert(m, key, targetOrder);
      var from := WindowStart(m, key, targetOrder);
      && key in p.keys && Distinct(p.keys)
      && (forall k :: k in p.keys ==> k == key || k in m.keys[from..])
      && (targetOrder in Affected(m, key, targetOrder).rest.orders ==> Without(p.keys, key) == Without(m.keys[from..], key))
      && (targetOrder !in Affected(m, key, targetOrder).rest.orders ==> p.keys == [key])
  {
    var p := PlanInsert(m, key, targetOrder);
    var index := IndexOf(m.keys, key);
    var from := WindowStart(m, key, targetOrder);
    var slice := DropMap(m, from);
    var rest := Affected(m, key, targetOrder).rest;
    RemoveKeyLeaves(slice, key);
    var position := Position(rest.orders, targetOrder, index);
    assert p.keys == Assemble(rest.keys, key, position);
    if position.Some? {
      AssembleSplices(rest.keys, key, position.value);
      Splice(rest.keys, key, position.value);
      forall k | k in rest.keys ensures k in slice.keys {
        WithoutSubset(slice.keys, key, k);
      }
    }
  }

  /**
   * The window a repositioning touches: no key before the window's start is
   * in the assembled keys, except the moved key itself; the starting sort
   * order is `min(indexPosition + 1, targetOrder)`.
   */
  lemma RepositionWindow<K>(m: OrderMap<K>, key: K, targetOrder: int)
    requires IsOrderMap(m)
    requires PlanInsert(m, key, targetOrder).Reposition?
    ensures key in m.keys
    ensures
      var p := PlanInsert(m, key, targetOrder);
      var index := IndexOf(m.keys, key);
      && p.start == (if index + 1 < targetOrder then index + 1 else targetOrder)
      && forall i :: 0 <= i < WindowStart(m, key, targetOrder) && m.keys[i] != key ==> m.keys[i] !in p.keys
  {
    RepositionShape(m, key, targetOrder);
    PrefixOutsideWindow(m.keys, PlanInsert(m, key, targetOrder).keys, key, WindowStart(m, key, targetOrder));
  }

  /** Keys drawn from `key` and the window `s[from..]` of distinct keys hold none of the other keys before the window. */
  lemma PrefixOutsideWindow<K>(s: seq<K>, keys: seq<K>, key: K, from: nat)
    requires Distinct(s) && from <= |s|
    requires forall k :: k in keys ==> k == key || k in s[from..]
    ensures forall i :: 0 <= i < from && s[i] != key ==> s[i] !in keys
  {
    forall i | 0 <= i < from && s[i] != key ensures s[i] !in keys {
      var tail := s[from..];
      forall j | 0 <= j < |tail| ensures tail[j] != s[i] {
        assert tail[j] == s[from + j];
      }
    }
  }

  /**
   * A map returned by the code as written writes only the affected window,
   * and its first order is the starting sort order.
   */
  lemma AsWrittenUpdatesStayInWindow<K>(m: OrderMap<K>, key: K, targetOrder: int)
    requires IsOrderMap(m)
    requires InsertSequentialAsWritten(m, key, targetOrder).Updates?
    ensures key in m.keys
    ensures
      var u := InsertSequentialAsWritten(m, key, targetOrder).updates;
      var index := IndexOf(m.keys, key);
      && key in u.keys
      && u.orders[0] == (if index + 1 < targetOrder then index + 1 else targetOrder)
      && forall i :: 0 <= i < WindowStart(m, key, targetOrder) && m.keys[i] != key ==> m.keys[i] !in u.keys
  {
    RepositionShape(m, key, targetOrder);
    RepositionWindow(m, key, targetOrder);
  }

  /** The same for the corrected copy. */
  lemma UpdatesStayInWindow<K>(m: OrderMap<K>, key: K, targetOrder: int)
    requires IsOrderMap(m)
    requires InsertSequential(m, key, targetOrder).Updates?
    ensures key in m.keys
    ensures
      var u := InsertSequential(m, key, targetOrder).updates;
      var index := IndexOf(m.keys, key);
      && key in u.keys
      && u.orders[0] == (if index + 1 < targetOrder then index + 1 else targetOrder)
      && forall i :: 0 <= i < WindowStart(m, key, targetOrder) && m.keys[i] != key ==> m.keys[i] !in u.keys
  {
    RepositionShape(m, key, targetOrder);
    RepositionWindow(m, key, targetOrder);
  }

  /**
   * The corrected copy never fails `array_combine`, and numbers the
   * assembled keys consecutively from the starting sort order, so no value
   * below it is written.
   */
  lemma CorrectedNumbering<K>(m: OrderMap<K>, key: K, targetOrder: int)
    requires IsOrderMap(m)
    ensures !InsertSequential(m, key, targetOrder).CombineFailed?
    ensures
      var r := InsertSequential(m, key, targetOrder);
      r.Updates? ==>
        && IsOrderMap(r.updates)
        && PlanInsert(m, key, targetOrder).Reposition?
        && forall j :: 0 <= j < |r.updates.orders| ==>
             r.updates.orders[j] == PlanInsert(m, key, targetOrder).start + j
  {
    var p := PlanInsert(m, key, targetOrder);
    if p.Reposition? {
      RepositionShape(m, key, targetOrder);
      assert |p.keys| >= 1;
    }
  }
}
