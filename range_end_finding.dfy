/**
 * The range bug in `insertSequential`: the new orders are
 * `range($startingSortOrder, count($order))`, which numbers the assembled
 * keys correctly only when the starting sort order is 1.
 */
module RangeEndFinding {
  import opened OrderMaps
  import opened SequentialOrder
  import opened SequentialOrderProps
  import opened DenseReposition

  /**
   * The code as written agrees with the corrected copy exactly when it does
   * not reposition, or repositions from sort order 1; from any other starting
   * order it either fails `array_combine` or writes different orders.
   */
  lemma AsWrittenAgreesIff<K>(m: OrderMap<K>, key: K, targetOrder: int)
    requires IsOrderMap(m)
    ensures InsertSequentialAsWritten(m, key, targetOrder) == InsertSequential(m, key, targetOrder)
      <==> !PlanInsert(m, key, targetOrder).Reposition? || PlanInsert(m, key, targetOrder).start == 1
  {
    var p := PlanInsert(m, key, targetOrder);
    if p.Reposition? {
      CorrectedFromPlan(m, key, targetOrder);
      var n, start := |p.keys|, p.start;
      var written := PhpRange(start, n);
      var intended := PhpRange(start, start + n - 1);
      assert n >= 1 && intended[n - 1] == start + n - 1;
      if start != 1 && |written| == n {
        assert written[n - 1] != intended[n - 1];
      }
    }
  }

  /** On a dense array the two agree exactly when the key moves from or to the first position. */
  lemma AsWrittenOnDense<K>(m: OrderMap<K>, index: nat, targetOrder: int)
    requires Dense(m) && index < |m.keys| && 1 <= targetOrder <= |m.keys|
    ensures InsertSequentialAsWritten(m, m.keys[index], targetOrder) == InsertSequential(m, m.keys[index], targetOrder)
      <==> index == 0 || targetOrder == 1 || targetOrder == index + 1
  {
    var key := m.keys[index];
    AsWrittenAgreesIff(m, key, targetOrder);
    if targetOrder != index + 1 {
      IndexOfDistinct(m.keys, index);
      RepositionShape(m, key, targetOrder);
      RepositionWindow(m, key, targetOrder);
    } else {
      InsertSequentialOnDense(m, index, targetOrder);
    }
  }

  /**
   * On any dense array of four keys a, b, c, d, moving c to order 4 as
   * written writes d => 3, c => 2 instead of d => 3, c => 4.
   */
  lemma AsWrittenMisnumbers<K>(m: OrderMap<K>)
    requires Dense(m) && |m.keys| == 4
    ensures InsertSequential(m, m.keys[2], 4) == Updates(OrderMap([m.keys[3], m.keys[2]], [3, 4]))
    ensures InsertSequentialAsWritten(m, m.keys[2], 4) == Updates(OrderMap([m.keys[3], m.keys[2]], [3, 2]))
  {
    ThirdToLastPlan(m);
    CorrectedFromPlan(m, m.keys[2], 4);
    AsWrittenFromPlan(m, m.keys[2], 4);
    RangesFromThree();
  }

  /** What the code as written returns once the plan is known: the keys with `range(start, count)`, if the lengths agree. */
  lemma AsWrittenFromPlan<K>(m: OrderMap<K>, key: K, targetOrder: int)
    requires IsOrderMap(m) && PlanInsert(m, key, targetOrder).Reposition?
    ensures
      var p := PlanInsert(m, key, targetOrder);
      var written := PhpRange(p.start, |p.keys|);
      && (|written| == |p.keys| ==> InsertSequentialAsWritten(m, key, targetOrder) == Updates(OrderMap(p.keys, written)))
      && (|written| != |p.keys| ==> InsertSequentialAsWritten(m, key, targetOrder) == CombineFailed)
  {
  }

  lemma RangesFromThree()
    ensures PhpRange(3, 4) == [3, 4] && PhpRange(3, 2) == [3, 2]
  {
    assert PhpRange(3, 4)[1] == 4 && PhpRange(3, 2)[1] == 2;
  }

  lemma RangesFromTwo()
    ensures PhpRange(2, 4) == [2, 3, 4] && |PhpRange(2, 3)| == 2
  {
    assert PhpRange(2, 4)[1] == 3 && PhpRange(2, 4)[2] == 4;
  }

  /** Moving the third of four keys to order 4 reassembles the last two, from sort order 3. */
  lemma ThirdToLastPlan<K>(m: OrderMap<K>)
    requires Dense(m) && |m.keys| == 4
    ensures PlanInsert(m, m.keys[2], 4) == Reposition(3, [m.keys[3], m.keys[2]])
  {
    PlanForward(m, 2, 4);
    ThirdAfterFourth(m.keys);
  }

  /** Of four distinct keys, slotting the third after the fourth gives the fourth, then the third. */
  lemma ThirdAfterFourth<K>(s: seq<K>)
    requires Distinct(s) && |s| == 4
    ensures Assemble(s[3..], s[2], Some(1)) == [s[3], s[2]]
  {
    HeadNotInTail(s[2..]);
    assert s[2..][1..] == s[3..];
    AssembleSplices(s[3..], s[2], 1);
    assert s[3..][..1] + [s[2]] + s[3..][1..] == [s[3], s[2]];
  }

  /** Moving the last of four keys to order 2 reassembles the last three, from sort order 2. */
  lemma LastToSecondPlan<K>(m: OrderMap<K>)
    requires Dense(m) && |m.keys| == 4
    ensures PlanInsert(m, m.keys[3], 2) == Reposition(2, [m.keys[3], m.keys[1], m.keys[2]])
  {
    PlanBackward(m, 3, 2);
    LastBeforeSecond(m.keys);
  }

  /** Of four distinct keys, putting the fourth in front of the second and third gives d, b, c. */
  lemma LastBeforeSecond<K>(s: seq<K>)
    requires Distinct(s) && |s| == 4
    ensures Assemble(s[1..3] + s[4..], s[3], Some(0)) == [s[3], s[1], s[2]]
  {
    DistinctAround(s, 1, 3);
    AssembleSplices(s[1..3] + s[4..], s[3], 0);
    assert [s[3]] + (s[1..3] + s[4..]) == [s[3], s[1], s[2]];
  }

  /**
   * On the same array, moving d back to order 2 as written fails
   * `array_combine`: two numbers for the three keys d, b, c.
   */
  lemma AsWrittenCombineFails<K>(m: OrderMap<K>)
    requires Dense(m) && |m.keys| == 4
    ensures InsertSequential(m, m.keys[3], 2) == Updates(OrderMap([m.keys[3], m.keys[1], m.keys[2]], [2, 3, 4]))
    ensures InsertSequentialAsWritten(m, m.keys[3], 2) == CombineFailed
  {
    LastToSecondPlan(m);
    CorrectedFromPlan(m, m.keys[3], 2);
    AsWrittenFromPlan(m, m.keys[3], 2);
    RangesFromTwo();
  }

  /** With no unset order (a dense array in particular) the trait's copy is the code as written. */
  lemma TraitAgreesWithoutZeros<K>(m: OrderMap<K>, key: K, targetOrder: int)
    requires IsOrderMap(m) && forall i :: 0 <= i < |m.orders| ==> m.orders[i] != 0
    ensures TraitInsertSequential(m, key, targetOrder) == InsertSequentialAsWritten(m, key, targetOrder)
  {
    NormalizeFixesNonZero(m.orders);
    assert Normalized(m) == m;
  }
}
