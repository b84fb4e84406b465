/**
 * `insertSequential` on a dense array, where the orders are exactly 1..N in
 * key order: the corrected copy moves one key to the requested position and
 * renumbers the keys between the old and the new position, so that applying
 * its map leaves the array dense again.
 */
module DenseReposition {
  import opened OrderMaps
  import opened SequentialOrder
  import opened SequentialOrderProps

  /** Orders 1..N, in key order. */
  predicate Dense<K(==)>(m: OrderMap<K>) {
    IsOrderMap(m) && forall i :: 0 <= i < |m.orders| ==> m.orders[i] == i + 1
  }

  /** `s` with its element at `from` taken out and put back at index `to`. */
  function Moved<K>(s: seq<K>, from: nat, to: nat): (r: seq<K>)
    requires from < |s| && to < |s|
    ensures |r| == |s| && r[to] == s[from]
  {
    seq(|s|, j requires 0 <= j < |s| =>
      if j == to then s[from]
      else if from < to && from <= j < to then s[j + 1]
      else if to < from && to < j <= from then s[j - 1]
      else s[j])
  }

  /** The same move, written as taking the element out and splicing it back in. */
  lemma MovedSplices<K>(s: seq<K>, from: nat, to: nat)
    requires from < |s| && to < |s|
    ensures
      var rest := s[..from] + s[from + 1..];
      Moved(s, from, to) == rest[..to] + [s[from]] + rest[to..]
  {
    var rest := s[..from] + s[from + 1..];
    var spliced := rest[..to] + [s[from]] + rest[to..];
    assert |spliced| == |s|;
    forall j | 0 <= j < |s| ensures Moved(s, from, to)[j] == spliced[j] {
      if j < to {
        assert spliced[j] == rest[j];
      } else if j > to {
        assert spliced[j] == rest[j - 1];
      }
    }
  }

  /** The order of `k` once the returned map has been applied over `m`. */
  function OrderAfter<K(==)>(m: OrderMap<K>, u: OrderMap<K>, k: K): int
    requires IsOrderMap(m) && IsOrderMap(u) && k in m.keys
  {
    if k in u.keys then u.orders[IndexOf(u.keys, k)] else m.orders[IndexOf(m.keys, k)]
  }

  /** Moving an element of a sequence of distinct keys keeps the same keys, distinct, and the others in order. */
  lemma MovedIsPermutation<K>(s: seq<K>, from: nat, to: nat)
    requires Distinct(s) && from < |s| && to < |s|
    ensures Distinct(Moved(s, from, to))
    ensures Without(Moved(s, from, to), s[from]) == Without(s, s[from])
    ensures forall k :: k in Moved(s, from, to) <==> k in s
  {
    var rest := s[..from] + s[from + 1..];
    MovedSplices(s, from, to);
    RemovedAt(s, from);
    Splice(rest, s[from], to);
    WithoutAt(s, from);
  }

  /** If `s[j] == base + j` everywhere, searching for a value in range finds it at its offset. */
  lemma SearchConsecutive(s: seq<int>, base: int, x: int)
    requires forall j :: 0 <= j < |s| ==> s[j] == base + j
    requires base <= x < base + |s|
    ensures Search(s, x) == Some(x - base)
  {
    assert s[x - base] == x;
  }

  /** Moving forward, the affected slice starts at the key itself. */
  lemma AffectedForward<K>(m: OrderMap<K>, index: nat, targetOrder: int)
    requires IsOrderMap(m) && index < |m.keys| && index + 1 < targetOrder
    ensures Affected(m, m.keys[index], targetOrder)
      == Removal(Some(m.orders[index]), OrderMap(m.keys[index + 1..], m.orders[index + 1..]))
  {
    var key := m.keys[index];
    IndexOfDistinct(m.keys, index);
    var slice := DropMap(m, index);
    assert slice.keys[0] == key;
    IndexOfDistinct(slice.keys, 0);
    assert slice.keys[1..] == m.keys[index + 1..];
    assert slice.orders[1..] == m.orders[index + 1..];
  }

  /** Moving forward on a dense array: the plan starts at the key's old order and slots the key after the entry holding the target. */
  lemma PlanForward<K>(m: OrderMap<K>, index: nat, targetOrder: int)
    requires Dense(m) && index < |m.keys| && index + 1 < targetOrder <= |m.keys|
    ensures
      var assembled := Assemble(m.keys[index + 1..], m.keys[index], Some(targetOrder - 1 - index));
      && PlanInsert(m, m.keys[index], targetOrder) == Reposition(index + 1, assembled)
      && |assembled| == |m.keys| - index
  {
    var key, t := m.keys[index], targetOrder;
    IndexOfDistinct(m.keys, index);
    AffectedForward(m, index, t);
    assert m.orders[index] == index + 1;
    PlanRepositions(m, key, t);
    ForwardPosition(m.orders, index, t);
    AssembleTailLength(m.keys, index, targetOrder);
  }

  /** On dense orders, the requested order is found among those after the key, one slot past it. */
  lemma ForwardPosition(orders: seq<int>, index: nat, targetOrder: int)
    requires forall i :: 0 <= i < |orders| ==> orders[i] == i + 1
    requires index + 1 < targetOrder <= |orders|
    ensures Position(orders[index + 1..], targetOrder, index) == Some(targetOrder - 1 - index)
  {
    var tail := orders[index + 1..];
    forall j | 0 <= j < |tail| ensures tail[j] == index + 2 + j {
      assert tail[j] == orders[index + 1 + j];
    }
    SearchConsecutive(tail, index + 2, targetOrder);
  }

  /** Slotting an element back among the ones after it keeps the length of that suffix. */
  lemma AssembleTailLength<K>(s: seq<K>, from: nat, to: int)
    requires Distinct(s) && from + 1 < to <= |s|
    ensures |Assemble(s[from + 1..], s[from], Some(to - 1 - from))| == |s| - from
  {
    HeadNotInTail(s[from..]);
    assert s[from..][1..] == s[from + 1..];
    AssembleSplices(s[from + 1..], s[from], to - 1 - from);
  }

  /** The corrected copy on a dense array, when the key moves forward: the forward plan numbered from the key's old order up to N. */
  lemma DenseForward<K>(m: OrderMap<K>, index: nat, targetOrder: int)
    requires Dense(m) && index < |m.keys| && index + 1 < targetOrder <= |m.keys|
    ensures InsertSequential(m, m.keys[index], targetOrder)
      == Updates(OrderMap(Assemble(m.keys[index + 1..], m.keys[index], Some(targetOrder - 1 - index)), PhpRange(index + 1, |m.keys|)))
    ensures |Assemble(m.keys[index + 1..], m.keys[index], Some(targetOrder - 1 - index))| == |m.keys| - index
  {
    PlanForward(m, index, targetOrder);
    var assembled := Assemble(m.keys[index + 1..], m.keys[index], Some(targetOrder - 1 - index));
    CorrectedFromPlanAt(m, m.keys[index], targetOrder, index + 1, assembled, |m.keys|);
  }

  /** Slotting an element back among the ones after it, at `to`, is moving it there. */
  lemma AssembleForward<K>(s: seq<K>, from: nat, to: nat)
    requires Distinct(s) && from < to < |s|
    ensures Assemble(s[from + 1..], s[from], Some(to - from)) == Moved(s, from, to)[from..]
  {
    HeadNotInTail(s[from..]);
    assert s[from..][1..] == s[from + 1..];
    AssembleSplices(s[from + 1..], s[from], to - from);
    MovedForwardTail(s, from, to);
  }

  /** From the moved element on, a forward move is the elements up to `to`, the moved one, then the rest. */
  lemma MovedForwardTail<K>(s: seq<K>, from: nat, to: nat)
    requires from < to < |s|
    ensures
      var rest := s[from + 1..];
      Moved(s, from, to)[from..] == rest[..to - from] + [s[from]] + rest[to - from..]
  {
    var rest := s[from + 1..];
    var block := rest[..to - from] + [s[from]] + rest[to - from..];
    forall k | 0 <= k < |s| - from ensures Moved(s, from, to)[from..][k] == block[k] {
      if k < to - from {
        assert block[k] == rest[k];
      } else if k > to - from {
        assert block[k] == rest[k - 1];
      }
    }
  }

  /** The forward update map, applied: the key at position i of the moved sequence has order i + 1. */
  lemma DenseForwardApplied<K>(m: OrderMap<K>, index: nat, targetOrder: int, u: OrderMap<K>)
    requires Dense(m) && index < |m.keys| && index + 1 < targetOrder <= |m.keys|
    requires u == OrderMap(Assemble(m.keys[index + 1..], m.keys[index], Some(targetOrder - 1 - index)), PhpRange(index + 1, |m.keys|))
    ensures
      var moved := Moved(m.keys, index, targetOrder - 1);
      && IsOrderMap(u)
      && moved[targetOrder - 1] == m.keys[index]
      && Without(moved, m.keys[index]) == Without(m.keys, m.keys[index])
      && (forall k :: k in moved <==> k in m.keys)
      && forall i :: 0 <= i < |moved| ==> OrderAfter(m, u, moved[i]) == i + 1
  {
    AssembleForward(m.keys, index, targetOrder - 1);
    DenseMoveApplied(m, index, targetOrder, index, u);
  }

  /** Moving back, the affected slice starts at the entry holding the target order. */
  lemma AffectedBackward<K>(m: OrderMap<K>, index: nat, targetOrder: int)
    requires IsOrderMap(m) && index < |m.keys| && 1 <= targetOrder <= index
    ensures
      var from := targetOrder - 1;
      Affected(m, m.keys[index], targetOrder)
        == Removal(Some(m.orders[index]),
             OrderMap(m.keys[from..index] + m.keys[index + 1..], m.orders[from..index] + m.orders[index + 1..]))
    ensures
      var rest := m.keys[targetOrder - 1..index] + m.keys[index + 1..];
      Distinct(rest) && m.keys[index] !in rest
  {
    var key, from := m.keys[index], targetOrder - 1;
    IndexOfDistinct(m.keys, index);
    var slice := DropMap(m, from);
    RemoveKeyLeaves(slice, key);
    var j := index - from;
    assert slice.keys[j] == key;
    IndexOfDistinct(slice.keys, j);
    assert slice.keys[..j] == m.keys[from..index];
    assert slice.keys[j + 1..] == m.keys[index + 1..];
    assert slice.orders[..j] == m.orders[from..index];
    assert slice.orders[j + 1..] == m.orders[index + 1..];
  }

  /** Moving back on a dense array: the plan starts at the target order and puts the key first. */
  lemma PlanBackward<K>(m: OrderMap<K>, index: nat, targetOrder: int)
    requires Dense(m) && index < |m.keys| && 1 <= targetOrder <= index
    ensures
      var assembled := Assemble(m.keys[targetOrder - 1..index] + m.keys[index + 1..], m.keys[index], Some(0));
      && PlanInsert(m, m.keys[index], targetOrder) == Reposition(targetOrder, assembled)
      && |assembled| == |m.keys| - (targetOrder - 1)
  {
    var key, t, from := m.keys[index], targetOrder, targetOrder - 1;
    IndexOfDistinct(m.keys, index);
    AffectedBackward(m, index, t);
    var rest := OrderMap(m.keys[from..index] + m.keys[index + 1..], m.orders[from..index] + m.orders[index + 1..]);
    assert m.orders[index] == index + 1;
    PlanRepositions(m, key, t);
    assert rest.orders[0] == m.orders[from] == t;
    assert Position(rest.orders, t, index) == Some(0);
    AssembleBackLength(m.keys, index, targetOrder);
  }

  /** Slotting an element in front of the ones from `targetOrder - 1` on, itself left out, keeps their count. */
  lemma AssembleBackLength<K>(s: seq<K>, index: nat, targetOrder: int)
    requires Distinct(s) && index < |s| && 1 <= targetOrder <= index
    ensures |Assemble(s[targetOrder - 1..index] + s[index + 1..], s[index], Some(0))| == |s| - (targetOrder - 1)
  {
    DistinctAround(s, targetOrder - 1, index);
    AssembleSplices(s[targetOrder - 1..index] + s[index + 1..], s[index], 0);
  }

  /** The corrected copy on a dense array, when the key moves back: the backward plan numbered from the requested order up to N. */
  lemma DenseBackward<K>(m: OrderMap<K>, index: nat, targetOrder: int)
    requires Dense(m) && index < |m.keys| && 1 <= targetOrder <= index
    ensures InsertSequential(m, m.keys[index], targetOrder)
      == Updates(OrderMap(Assemble(m.keys[targetOrder - 1..index] + m.keys[index + 1..], m.keys[index], Some(0)), PhpRange(targetOrder, |m.keys|)))
    ensures |Assemble(m.keys[targetOrder - 1..index] + m.keys[index + 1..], m.keys[index], Some(0))| == |m.keys| - (targetOrder - 1)
  {
    PlanBackward(m, index, targetOrder);
    var assembled := Assemble(m.keys[targetOrder - 1..index] + m.keys[index + 1..], m.keys[index], Some(0));
    CorrectedFromPlanAt(m, m.keys[index], targetOrder, targetOrder, assembled, |m.keys|);
  }

  /** The elements from `to` on, with the one at `from` left out, are distinct and do not hold it. */
  lemma DistinctAround<K>(s: seq<K>, to: nat, from: nat)
    requires Distinct(s) && to <= from < |s|
    ensures
      var rest := s[to..from] + s[from + 1..];
      Distinct(rest) && s[from] !in rest
  {
    var rest := s[to..from] + s[from + 1..];
    forall a | 0 <= a < |rest| ensures rest[a] == s[if a < from - to then to + a else to + a + 1] {
    }
    forall a, b | 0 <= a < b < |rest| ensures rest[a] != rest[b] {
      assert rest[a] == s[if a < from - to then to + a else to + a + 1];
      assert rest[b] == s[if b < from - to then to + b else to + b + 1];
    }
    forall a | 0 <= a < |rest| ensures rest[a] != s[from] {
      assert rest[a] == s[if a < from - to then to + a else to + a + 1];
    }
  }

  /** Putting an element in front of the ones from `to` on, itself left out, is moving it to `to`. */
  lemma AssembleBackward<K>(s: seq<K>, from: nat, to: nat)
    requires Distinct(s) && to < from < |s|
    ensures Assemble(s[to..from] + s[from + 1..], s[from], Some(0)) == Moved(s, from, to)[to..]
  {
    var rest := s[to..from] + s[from + 1..];
    DistinctAround(s, to, from);
    AssembleSplices(rest, s[from], 0);
    assert rest[..0] + [s[from]] + rest[0..] == [s[from]] + rest;
    MovedBackwardTail(s, from, to);
  }

  /** From `to` on, a backward move is the moved element, then the others in order. */
  lemma MovedBackwardTail<K>(s: seq<K>, from: nat, to: nat)
    requires to < from < |s|
    ensures Moved(s, from, to)[to..] == [s[from]] + (s[to..from] + s[from + 1..])
  {
    var block := [s[from]] + (s[to..from] + s[from + 1..]);
    var moved := Moved(s, from, to);
    forall k | 0 <= k < |s| - to ensures moved[to..][k] == block[k] {
      assert moved[to..][k] == moved[to + k];
      if k == 0 {
        assert block[0] == s[from];
      } else if k <= from - to {
        assert block[k] == s[to..from][k - 1];
      } else if k > from - to {
        assert block[k] == s[from + 1..][k - 1 - (from - to)];
      }
    }
  }

  /** The backward update map, applied: the key at position i of the moved sequence has order i + 1. */
  lemma DenseBackwardApplied<K>(m: OrderMap<K>, index: nat, targetOrder: int, u: OrderMap<K>)
    requires Dense(m) && index < |m.keys| && 1 <= targetOrder <= index
    requires u == OrderMap(Assemble(m.keys[targetOrder - 1..index] + m.keys[index + 1..], m.keys[index], Some(0)), PhpRange(targetOrder, |m.keys|))
    ensures
      var moved := Moved(m.keys, index, targetOrder - 1);
      && IsOrderMap(u)
      && moved[targetOrder - 1] == m.keys[index]
      && Without(moved, m.keys[index]) == Without(m.keys, m.keys[index])
      && (forall k :: k in moved <==> k in m.keys)
      && forall i :: 0 <= i < |moved| ==> OrderAfter(m, u, moved[i]) == i + 1
  {
    AssembleBackward(m.keys, index, targetOrder - 1);
    DenseMoveApplied(m, index, targetOrder, targetOrder - 1, u);
  }

  /**
   * On a dense array of N keys and a requested order between 1 and N, the
   * corrected copy returns `true` when the key already holds that order, and
   * otherwise an update map numbering the keys from the first affected index
   * of the array consecutively up to N.
   */
  lemma InsertSequentialOnDense<K>(m: OrderMap<K>, index: nat, targetOrder: int)
    requires Dense(m) && index < |m.keys| && 1 <= targetOrder <= |m.keys|
    ensures targetOrder == index + 1 ==> InsertSequential(m, m.keys[index], targetOrder) == InPlace
    ensures targetOrder != index + 1 ==>
      var start := if index + 1 < targetOrder then index + 1 else targetOrder;
      var r := InsertSequential(m, m.keys[index], targetOrder);
      && r.Updates?
      && r.updates.orders == PhpRange(start, |m.keys|)
      && |r.updates.keys| == |m.keys| - start + 1
  {
    if targetOrder == index + 1 {
      IndexOfDistinct(m.keys, index);
      SentinelOutcomes(m, m.keys[index], targetOrder);
    } else if index + 1 < targetOrder {
      DenseForward(m, index, targetOrder);
    } else {
      DenseBackward(m, index, targetOrder);
    }
  }

  /** Moving an element leaves every position before both ends untouched. */
  lemma MovedPrefix<K>(s: seq<K>, from: nat, to: nat, low: nat)
    requires from < |s| && to < |s| && low <= from && low <= to
    ensures Moved(s, from, to)[..low] == s[..low]
  {
    forall j | 0 <= j < low ensures Moved(s, from, to)[..low][j] == s[..low][j] {
    }
  }

  /**
   * Renumbering a suffix of a rearranged dense array consecutively, from
   * just past the untouched prefix, gives every key its new position plus one.
   */
  lemma RenumberedSuffix<K>(m: OrderMap<K>, moved: seq<K>, low: nat, u: OrderMap<K>)
    requires Dense(m) && |moved| == |m.keys| && low < |moved| && Distinct(moved)
    requires moved[..low] == m.keys[..low]
    requires forall k :: k in moved ==> k in m.keys
    requires u == OrderMap(moved[low..], PhpRange(low + 1, |m.keys|))
    ensures IsOrderMap(u)
    ensures forall i :: 0 <= i < |moved| ==> OrderAfter(m, u, moved[i]) == i + 1
  {
    assert Distinct(u.keys) by {
      forall a, b | 0 <= a < b < |u.keys| ensures u.keys[a] != u.keys[b] {
        assert u.keys[a] == moved[low + a] && u.keys[b] == moved[low + b];
      }
    }
    forall i | 0 <= i < |moved| ensures OrderAfter(m, u, moved[i]) == i + 1 {
      if i < low {
        assert moved[i] == m.keys[i] by {
          assert moved[..low][i] == m.keys[..low][i];
        }
        IndexOfDistinct(m.keys, i);
        assert moved[i] !in u.keys by {
          forall j | 0 <= j < |u.keys| ensures u.keys[j] != moved[i] {
            assert u.keys[j] == moved[low + j];
          }
        }
      } else {
        assert u.keys[i - low] == moved[i];
        IndexOfDistinct(u.keys, i - low);
      }
    }
  }

  /** What a move keeps: the keys, their distinctness, the order of the others, and the untouched prefix. */
  lemma MovedFacts<K>(s: seq<K>, from: nat, to: nat, low: nat)
    requires Distinct(s) && from < |s| && to < |s| && low <= from && low <= to
    ensures
      var moved := Moved(s, from, to);
      && Distinct(moved)
      && moved[to] == s[from]
      && Without(moved, s[from]) == Without(s, s[from])
      && (forall k :: k in moved <==> k in s)
      && moved[..low] == s[..low]
  {
    MovedIsPermutation(s, from, to);
    MovedPrefix(s, from, to, low);
  }

  /**
   * The map the corrected copy returns on a dense array, applied: the key at
   * position i of the moved sequence gets order i + 1.
   */
  lemma DenseMoveApplied<K>(m: OrderMap<K>, index: nat, targetOrder: int, low: nat, u: OrderMap<K>)
    requires Dense(m) && index < |m.keys| && 1 <= targetOrder <= |m.keys|
    requires low == if index < targetOrder - 1 then index else targetOrder - 1
    requires u == OrderMap(Moved(m.keys, index, targetOrder - 1)[low..], PhpRange(low + 1, |m.keys|))
    ensures
      var moved := Moved(m.keys, index, targetOrder - 1);
      && IsOrderMap(u)
      && moved[targetOrder - 1] == m.keys[index]
      && Without(moved, m.keys[index]) == Without(m.keys, m.keys[index])
      && (forall k :: k in moved <==> k in m.keys)
      && forall i :: 0 <= i < |moved| ==> OrderAfter(m, u, moved[i]) == i + 1
  {
    MovedKeeps(m.keys, index, targetOrder - 1);
    MovedRenumbered(m, index, targetOrder - 1, low, u);
  }

  /** Renumbering the moved suffix from low + 1 gives every key its position in the moved sequence. */
  lemma MovedRenumbered<K>(m: OrderMap<K>, from: nat, to: nat, low: nat, u: OrderMap<K>)
    requires Dense(m) && from < |m.keys| && to < |m.keys| && low <= from && low <= to
    requires u == OrderMap(Moved(m.keys, from, to)[low..], PhpRange(low + 1, |m.keys|))
    ensures IsOrderMap(u)
    ensures forall i :: 0 <= i < |Moved(m.keys, from, to)| ==> OrderAfter(m, u, Moved(m.keys, from, to)[i]) == i + 1
  {
    var moved := Moved(m.keys, from, to);
    MovedFacts(m.keys, from, to, low);
    assert |moved| == |m.keys|;
    RenumberedSuffix(m, moved, low, u);
  }

  /** A move puts the key at its new position and keeps the same keys. */
  lemma MovedKeeps<K>(s: seq<K>, from: nat, to: nat)
    requires Distinct(s) && from < |s| && to < |s|
    ensures Moved(s, from, to)[to] == s[from]
    ensures Without(Moved(s, from, to), s[from]) == Without(s, s[from])
    ensures forall k :: k in Moved(s, from, to) <==> k in s
  {
    MovedFacts(s, from, to, 0);
  }

  /**
   * Applying the corrected copy's map to a dense array gives the moved key
   * the requested order, keeps the others in their relative order, and
   * leaves the array dense: the key at position i of the moved sequence has
   * order i + 1.
   */
  lemma RepositionOnDenseIsMove<K>(m: OrderMap<K>, index: nat, targetOrder: int)
    requires Dense(m) && index < |m.keys| && 1 <= targetOrder <= |m.keys| && targetOrder != index + 1
    ensures InsertSequential(m, m.keys[index], targetOrder).Updates?
    ensures
      var u := InsertSequential(m, m.keys[index], targetOrder).updates;
      var moved := Moved(m.keys, index, targetOrder - 1);
      && IsOrderMap(u)
      && moved[targetOrder - 1] == m.keys[index]
      && Without(moved, m.keys[index]) == Without(m.keys, m.keys[index])
      && (forall k :: k in moved <==> k in m.keys)
      && forall i :: 0 <= i < |moved| ==> OrderAfter(m, u, moved[i]) == i + 1
  {
    if index + 1 < targetOrder {
      DenseForward(m, index, targetOrder);
      DenseForwardApplied(m, index, targetOrder, InsertSequential(m, m.keys[index], targetOrder).updates);
    } else {
      DenseBackward(m, index, targetOrder);
      DenseBackwardApplied(m, index, targetOrder, InsertSequential(m, m.keys[index], targetOrder).updates);
    }
  }
}
