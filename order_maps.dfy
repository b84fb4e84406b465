/**
 * The PHP array operations that the sort-order code is built from, stated on
 * an explicit model of an ordered PHP array `key => sortOrder`.
 *
 * Keys are compared with `==`; sort orders are integers (a NULL column value
 * is read as 0, which is what both `(int)null` and PHP's loose `null == 0`
 * give).
 */
module OrderMaps {

  datatype Option<T> = None | Some(value: T) {
    function GetOr(default: T): T {
      match this
      case Some(v) => v
      case None => default
    }
  }

  /** No key occurs twice: what every PHP array guarantees of its keys. */
  predicate Distinct<K(==)>(s: seq<K>) {
    forall i, j :: 0 <= i < j < |s| ==> s[i] != s[j]
  }

  /** An ordered PHP array `key => sortOrder`, as its keys and values in iteration order. */
  datatype OrderMap<K> = OrderMap(keys: seq<K>, orders: seq<int>)

  predicate IsOrderMap<K(==)>(m: OrderMap<K>) {
    |m.keys| == |m.orders| && Distinct(m.keys)
  }

  /** `array_search($x, $s)` (`==` on keys and on integers): the first index holding `x`, or `false`. */
  function Search<T(==)>(s: seq<T>, x: T): (r: Option<nat>)
    ensures r.None? <==> x !in s
    ensures r.Some? ==> r.value < |s| && s[r.value] == x && x !in s[..r.value]
  {
    if |s| == 0 then None
    else if s[0] == x then Some(0)
    else
      match Search(s[1..], x)
      case None => None
      case Some(i) =>
        assert s[..i + 1] == [s[0]] + s[1..][..i];
        Some(i + 1)
  }

  /** The index of a key known to be present. */
  function IndexOf<T(==)>(s: seq<T>, x: T): (i: nat)
    requires x in s
    ensures i < |s| && s[i] == x && x !in s[..i]
  {
    Search(s, x).value
  }

  lemma IndexOfDistinct<T>(s: seq<T>, i: nat)
    requires Distinct(s) && i < |s|
    ensures IndexOf(s, s[i]) == i
  {
    var j := IndexOf(s, s[i]);
    assert s[j] == s[i];
  }

  lemma HeadNotInTail<T>(s: seq<T>)
    requires Distinct(s) && |s| > 0
    ensures s[0] !in s[1..] && Distinct(s[1..])
  {
    forall k | 0 <= k < |s| - 1 ensures s[1..][k] != s[0] {
      assert s[1..][k] == s[k + 1];
    }
    forall i, j | 0 <= i < j < |s[1..]| ensures s[1..][i] != s[1..][j] {
      assert s[1..][i] == s[i + 1] && s[1..][j] == s[j + 1];
    }
  }

  /**
   * Where `array_slice($a, $offset)` starts in an array of `n` entries: a
   * negative offset counts back from the end, and one beyond either end is
   * cut back to it.
   */
  function SliceStart(n: nat, offset: int): (s: nat)
    ensures s <= n
    ensures 0 <= offset <= n ==> s == offset
    ensures offset < 0 ==> s == (if n + offset >= 0 then n + offset else 0)
  {
    if offset >= 0 then (if offset <= n then offset else n)
    else if n + offset >= 0 then n + offset
    else 0
  }

  /** `array_slice($m, $from, null, true)`: the entries from index `from` on, keys kept. */
  function DropMap<K(==)>(m: OrderMap<K>, from: nat): (r: OrderMap<K>)
    requires IsOrderMap(m) && from <= |m.keys|
    ensures IsOrderMap(r)
  {
    var r := OrderMap(m.keys[from..], m.orders[from..]);
    assert Distinct(r.keys) by {
      forall i, j | 0 <= i < j < |r.keys| ensures r.keys[i] != r.keys[j] {
        assert r.keys[i] == m.keys[from + i] && r.keys[j] == m.keys[from + j];
      }
    }
    r
  }

  datatype Removal<K> = Removal(value: Option<int>, rest: OrderMap<K>)

  /** `ArrayHelper::remove($m, $k)`: the removed value (null when absent) and the array without `k`. */
  function RemoveKey<K(==)>(m: OrderMap<K>, k: K): (r: Removal<K>)
    requires IsOrderMap(m)
    ensures IsOrderMap(r.rest)
    ensures r.value.None? <==> k !in m.keys
    ensures k !in m.keys ==> r.rest == m
    ensures k in m.keys ==>
      var i := IndexOf(m.keys, k);
      && r.value == Some(m.orders[i])
      && r.rest == OrderMap(m.keys[..i] + m.keys[i + 1..], m.orders[..i] + m.orders[i + 1..])
  {
    match Search(m.keys, k)
    case None => Removal(None, m)
    case Some(i) =>
      var rest := OrderMap(m.keys[..i] + m.keys[i + 1..], m.orders[..i] + m.orders[i + 1..]);
      assert Distinct(rest.keys) by {
        forall a, b | 0 <= a < b < |rest.keys| ensures rest.keys[a] != rest.keys[b] {
          var a' := if a < i then a else a + 1;
          var b' := if b < i then b else b + 1;
          assert rest.keys[a] == m.keys[a'] && rest.keys[b] == m.keys[b'];
        }
      }
      Removal(Some(m.orders[i]), rest)
  }

  /** The union `$a + $b` of two PHP arrays, on their keys: those of `b` not already in `a` are appended. */
  function UnionKeys<K(==)>(a: seq<K>, b: seq<K>): seq<K>
    decreases |b|
  {
    if |b| == 0 then a
    else if b[0] in a then UnionKeys(a, b[1..])
    else UnionKeys(a + [b[0]], b[1..])
  }

  /** Cutting a sequence of distinct elements gives two distinct halves with nothing in common. */
  lemma DistinctSplit<K>(s: seq<K>, pos: nat)
    requires Distinct(s) && pos <= |s|
    ensures Distinct(s[..pos]) && Distinct(s[pos..])
    ensures forall x :: x in s[..pos] ==> x !in s[pos..]
  {
    var front, back := s[..pos], s[pos..];
    forall i, j | 0 <= i < j < |back| ensures back[i] != back[j] {
      assert back[i] == s[pos + i] && back[j] == s[pos + j];
    }
    forall x | x in front ensures x !in back {
      var i :| 0 <= i < |front| && front[i] == x;
      forall j | 0 <= j < |back| ensures back[j] != x {
        assert back[j] == s[pos + j] && front[i] == s[i];
      }
    }
  }

  /** The union keeps every key of its left operand, so it is never shorter. */
  lemma {:induction false} UnionKeysLonger<K>(a: seq<K>, b: seq<K>)
    ensures |UnionKeys(a, b)| >= |a|
    decreases |b|
  {
    if |b| > 0 {
      if b[0] in a {
        UnionKeysLonger(a, b[1..]);
      } else {
        UnionKeysLonger(a + [b[0]], b[1..]);
      }
    }
  }

  lemma {:induction false} UnionOfDisjoint<K>(a: seq<K>, b: seq<K>)
    requires forall x :: x in a ==> x !in b
    requires Distinct(b)
    ensures UnionKeys(a, b) == a + b
    decreases |b|
  {
    if |b| > 0 {
      assert b[0] !in a;
      HeadNotInTail(b);
      UnionOfDisjoint(a + [b[0]], b[1..]);
      assert a + [b[0]] + b[1..] == a + b;
    }
  }

  /** PHP `range($from, $to)` on integers: both ends included, counting down when `$from > $to`. */
  function PhpRange(from: int, to: int): (r: seq<int>)
    ensures |r| == if from <= to then to - from + 1 else from - to + 1
    ensures forall i :: 0 <= i < |r| ==> r[i] == if from <= to then from + i else from - i
  {
    if from <= to then seq(to - from + 1, i => from + i)
    else seq(from - to + 1, i => from - i)
  }

  /**
   * `array_flip(array_combine($numbers, $keys))`: each key paired with the
   * number at the same place; `array_combine` fails (None) when the two
   * lists differ in length.
   */
  function FlipCombine<K>(numbers: seq<int>, keys: seq<K>): (r: Option<OrderMap<K>>)
    ensures r.Some? <==> |numbers| == |keys|
    ensures r.Some? ==> r.value.keys == keys && r.value.orders == numbers
  {
    if |numbers| == |keys| then Some(OrderMap(keys, numbers)) else None
  }

  /** The sequence with every occurrence of `x` taken out. */
  function Without<K(==)>(s: seq<K>, x: K): (r: seq<K>)
  {
    if |s| == 0 then []
    else if s[0] == x then Without(s[1..], x)
    else [s[0]] + Without(s[1..], x)
  }

  lemma {:induction false} WithoutAppend<K>(a: seq<K>, b: seq<K>, x: K)
    ensures Without(a + b, x) == Without(a, x) + Without(b, x)
    decreases |a|
  {
    if |a| == 0 {
      assert a + b == b;
    } else {
      assert (a + b)[0] == a[0];
      assert (a + b)[1..] == a[1..] + b;
      WithoutAppend(a[1..], b, x);
    }
  }

  lemma {:induction false} WithoutAbsent<K>(s: seq<K>, x: K)
    requires x !in s
    ensures Without(s, x) == s
    decreases |s|
  {
    if |s| > 0 {
      assert x !in s[1..];
      WithoutAbsent(s[1..], x);
    }
  }

  lemma WithoutAt<K>(s: seq<K>, i: nat)
    requires Distinct(s) && i < |s|
    ensures Without(s, s[i]) == s[..i] + s[i + 1..]
  {
    NotAround(s, i);
    WithoutOnly(s, i);
  }

  /** In a sequence of distinct keys, the key at `i` occurs neither before nor after `i`. */
  lemma NotAround<K>(s: seq<K>, i: nat)
    requires Distinct(s) && i < |s|
    ensures s[i] !in s[..i] && s[i] !in s[i + 1..]
  {
    forall k | 0 <= k < i ensures s[..i][k] != s[i] {
      assert s[..i][k] == s[k];
    }
    var tail := s[i + 1..];
    forall k | 0 <= k < |tail| ensures tail[k] != s[i] {
      assert tail[k] == s[i + 1 + k];
    }
  }

  /** Taking out a key that occurs only at `i` leaves what is before and after it. */
  lemma WithoutOnly<K>(s: seq<K>, i: nat)
    requires i < |s| && s[i] !in s[..i] && s[i] !in s[i + 1..]
    ensures Without(s, s[i]) == s[..i] + s[i + 1..]
  {
    SplitAt(s, i);
    WithoutBetween(s[..i], s[i + 1..], s[i]);
  }

  /** A sequence is what comes before `i`, the element at `i`, and what comes after. */
  lemma SplitAt<K>(s: seq<K>, i: nat)
    requires i < |s|
    ensures s == s[..i] + [s[i]] + s[i + 1..]
  {
    assert s[..i + 1] == s[..i] + [s[i]];
    assert s == s[..i + 1] + s[i + 1..];
  }

  /** Taking out the one occurrence of `x` between two runs that lack it leaves the two runs. */
  lemma WithoutBetween<K>(head: seq<K>, tail: seq<K>, x: K)
    requires x !in head && x !in tail
    ensures Without(head + [x] + tail, x) == head + tail
  {
    assert head + [x] + tail == head + ([x] + tail);
    WithoutAppend(head, [x] + tail, x);
    assert ([x] + tail)[0] == x && ([x] + tail)[1..] == tail;
    WithoutAbsent(head, x);
    WithoutAbsent(tail, x);
  }

  /** What `ArrayHelper::remove` leaves: every other key, in order, and never the removed one. */
  lemma RemoveKeyLeaves<K>(m: OrderMap<K>, k: K)
    requires IsOrderMap(m)
    ensures k !in RemoveKey(m, k).rest.keys
    ensures RemoveKey(m, k).rest.keys == Without(m.keys, k)
  {
    if k in m.keys {
      var i := IndexOf(m.keys, k);
      IndexOfDistinct(m.keys, i);
      WithoutAt(m.keys, i);
      var tail := m.keys[i..];
      HeadNotInTail(tail);
      assert tail[1..] == m.keys[i + 1..];
    } else {
      WithoutAbsent(m.keys, k);
    }
  }

  /** Splicing a new key into a sequence of distinct keys keeps them distinct and in order. */
  lemma Splice<K>(s: seq<K>, x: K, pos: nat)
    requires Distinct(s) && x !in s && pos <= |s|
    ensures Distinct(s[..pos] + [x] + s[pos..])
    ensures Without(s[..pos] + [x] + s[pos..], x) == s
    ensures forall k :: k in s[..pos] + [x] + s[pos..] ==> k == x || k in s
  {
    SpliceAt(s, x, pos);
    SpliceDistinct(s, x, pos);
    SpliceWithout(s, x, pos);
    var ks := s[..pos] + [x] + s[pos..];
    forall k | k in ks ensures k == x || k in s {
      var j :| 0 <= j < |ks| && ks[j] == k;
      if j < pos {
        assert ks[j] == s[j];
      } else if j > pos {
        assert ks[j] == s[j - 1];
      }
    }
  }

  /** Where each element of the spliced sequence comes from. */
  lemma SpliceAt<K>(s: seq<K>, x: K, pos: nat)
    requires pos <= |s|
    ensures |s[..pos] + [x] + s[pos..]| == |s| + 1
    ensures forall j :: 0 <= j < |s| + 1 ==>
      (s[..pos] + [x] + s[pos..])[j] == if j < pos then s[j] else if j == pos then x else s[j - 1]
  {
  }

  lemma SpliceDistinct<K>(s: seq<K>, x: K, pos: nat)
    requires Distinct(s) && x !in s && pos <= |s|
    ensures Distinct(s[..pos] + [x] + s[pos..])
  {
    var ks := s[..pos] + [x] + s[pos..];
    SpliceAt(s, x, pos);
    forall a, b | 0 <= a < b < |ks| ensures ks[a] != ks[b] {
      var a' := if a < pos then a else a - 1;
      var b' := if b < pos then b else b - 1;
      if a != pos && b != pos {
        assert ks[a] == s[a'] && ks[b] == s[b'];
      } else if a == pos {
        assert ks[b] == s[b'];
      } else {
        assert ks[a] == s[a'];
      }
    }
  }

  lemma SpliceWithout<K>(s: seq<K>, x: K, pos: nat)
    requires x !in s && pos <= |s|
    ensures Without(s[..pos] + [x] + s[pos..], x) == s
  {
    var head, tail := s[..pos], s[pos..];
    assert s == head + tail;
    WithoutBetween(head, tail, x);
  }
  lemma {:induction false} WithoutSubset<K>(s: seq<K>, x: K, k: K)
    requires k in Without(s, x)
    ensures k in s && k != x
    decreases |s|
  {
    if s[0] != x && k != s[0] {
      WithoutSubset(s[1..], x, k);
    } else if s[0] == x {
      WithoutSubset(s[1..], x, k);
    }
  }
  /** Taking the element at `i` out of a sequence of distinct keys leaves the others, distinct, without it. */
  lemma RemovedAt<K>(s: seq<K>, i: nat)
    requires Distinct(s) && i < |s|
    ensures Distinct(s[..i] + s[i + 1..])
    ensures s[i] !in s[..i] + s[i + 1..]
    ensures forall k :: k in s[..i] + s[i + 1..] <==> k in s && k != s[i]
  {
    var rest := s[..i] + s[i + 1..];
    forall a | 0 <= a < |rest| ensures rest[a] == s[if a < i then a else a + 1] {
    }
    forall a, b | 0 <= a < b < |rest| ensures rest[a] != rest[b] {
      assert rest[a] == s[if a < i then a else a + 1];
      assert rest[b] == s[if b < i then b else b + 1];
    }
    forall k | k in s && k != s[i] ensures k in rest {
      var j :| 0 <= j < |s| && s[j] == k;
      assert rest[if j < i then j else j - 1] == k;
    }
  }
}
