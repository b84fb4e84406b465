/**
 * The association table the service works on, as an in-memory store: rows
 * `(source, target, sortOrder)` whose `(source, target)` pair is unique, and
 * the reads and writes the service issues against it.
 *
 * A scope is the set of rows of one source. Reading a scope returns its rows
 * ordered by `sortOrder`, the query's default ordering; rows with equal
 * orders come back in table order.
 */
module AssociationStore {
  import opened OrderMaps

  /** One stored association row. */
  datatype Row = Row(source: int, target: int, sortOrder: int)

  /** An association record as the service receives it: any attribute may still be unset. */
  datatype Association = Association(source: Option<int>, target: Option<int>, sortOrder: Option<int>)

  /** The row a record stands for, once its source and target are set. */
  function RowOf(record: Association, sortOrder: int): Row
    requires record.source.Some? && record.target.Some?
  {
    Row(record.source.value, record.target.value, sortOrder)
  }

  /** The record an existing row is read back as. */
  function RecordOf(row: Row): Association {
    Association(Some(row.source), Some(row.target), Some(row.sortOrder))
  }

  /** The composite key `(source, target)` identifies a row. */
  predicate UniqueKeys(rows: seq<Row>) {
    forall i, j :: 0 <= i < |rows| && 0 <= j < |rows| && rows[i].source == rows[j].source && rows[i].target == rows[j].target ==> i == j
  }

  lemma UniqueKeysTail(rows: seq<Row>)
    requires UniqueKeys(rows) && |rows| > 0
    ensures UniqueKeys(rows[1..])
  {
    forall i, j | 0 <= i < |rows[1..]| && 0 <= j < |rows[1..]| && rows[1..][i].source == rows[1..][j].source && rows[1..][i].target == rows[1..][j].target
      ensures i == j
    {
      assert rows[1..][i] == rows[i + 1] && rows[1..][j] == rows[j + 1];
    }
  }

  predicate HasKey(rows: seq<Row>, source: int, target: int) {
    exists r :: r in rows && r.source == source && r.target == target
  }

  /*******************************************
   * READS
   *******************************************/

  /** The rows of one scope, in table order. */
  function ScopeRows(rows: seq<Row>, source: int): (scope: seq<Row>)
    ensures forall r :: r in scope <==> r in rows && r.source == source
    ensures |scope| <= |rows|
  {
    if |rows| == 0 then []
    else if rows[0].source == source then [rows[0]] + ScopeRows(rows[1..], source)
    else ScopeRows(rows[1..], source)
  }

  predicate SortedByOrder(rows: seq<Row>) {
    forall i, j :: 0 <= i < j < |rows| ==> rows[i].sortOrder <= rows[j].sortOrder
  }

  /** Puts `row` before the first row whose order is not smaller. */
  function InsertByOrder(row: Row, sorted: seq<Row>): (result: seq<Row>)
    ensures multiset(result) == multiset(sorted) + multiset{row}
    ensures |result| == |sorted| + 1
    ensures result[0] == row || (|sorted| > 0 && result[0] == sorted[0])
    ensures forall x :: x in result <==> x == row || x in sorted
    ensures SortedByOrder(sorted) ==> SortedByOrder(result)
  {
    if |sorted| == 0 || row.sortOrder <= sorted[0].sortOrder then
      [row] + sorted
    else
      var rest := InsertByOrder(row, sorted[1..]);
      assert sorted == [sorted[0]] + sorted[1..];
      SortedBehindHead(sorted, row, rest);
      [sorted[0]] + rest
  }

  /** A head no larger than every row after it keeps a sorted tail sorted. */
  lemma SortedBehindHead(sorted: seq<Row>, row: Row, rest: seq<Row>)
    requires |sorted| > 0 && sorted[0].sortOrder < row.sortOrder
    requires forall x :: x in rest <==> x == row || x in sorted[1..]
    requires SortedByOrder(sorted[1..]) ==> SortedByOrder(rest)
    ensures SortedByOrder(sorted) ==> SortedByOrder([sorted[0]] + rest)
  {
    if SortedByOrder(sorted) {
      var head := sorted[0];
      forall k | 0 <= k < |rest| ensures head.sortOrder <= rest[k].sortOrder {
        assert rest[k] in rest;
        if rest[k] != row {
          var j :| 0 <= j < |sorted[1..]| && sorted[1..][j] == rest[k];
          assert sorted[1..][j] == sorted[j + 1];
        }
      }
      assert SortedByOrder(sorted[1..]) by {
        forall i, j | 0 <= i < j < |sorted[1..]| ensures sorted[1..][i].sortOrder <= sorted[1..][j].sortOrder {
          assert sorted[1..][i] == sorted[i + 1] && sorted[1..][j] == sorted[j + 1];
        }
      }
      var r := [head] + rest;
      forall i, j | 0 <= i < j < |r| ensures r[i].sortOrder <= r[j].sortOrder {
        if i > 0 {
          assert r[i] == rest[i - 1] && r[j] == rest[j - 1];
        } else {
          assert r[j] == rest[j - 1];
        }
      }
    }
  }

  /** A stable insertion sort on `sortOrder`: the scope as the query reads it. */
  function SortByOrder(rows: seq<Row>): (sorted: seq<Row>)
    ensures SortedByOrder(sorted)
    ensures multiset(sorted) == multiset(rows)
    ensures |sorted| == |rows|
  {
    if |rows| == 0 then []
    else
      assert rows == [rows[0]] + rows[1..];
      InsertByOrder(rows[0], SortByOrder(rows[1..]))
  }

  /** The rows of one scope as `associationQuery` returns them: ordered by `sortOrder`. */
  function ReadScope(rows: seq<Row>, source: int): (read: seq<Row>)
    ensures forall x :: x in read <==> x in rows && x.source == source
    ensures SortedByOrder(read)
  {
    var read := SortByOrder(ScopeRows(rows, source));
    assert forall x :: x in read <==> x in multiset(ScopeRows(rows, source));
    read
  }

  function Targets(rows: seq<Row>): (targets: seq<int>)
    ensures |targets| == |rows|
    ensures forall i :: 0 <= i < |rows| ==> targets[i] == rows[i].target
  {
    seq(|rows|, i requires 0 <= i < |rows| => rows[i].target)
  }

  function Orders(rows: seq<Row>): (orders: seq<int>)
    ensures |orders| == |rows|
    ensures forall i :: 0 <= i < |rows| ==> orders[i] == rows[i].sortOrder
  {
    seq(|rows|, i requires 0 <= i < |rows| => rows[i].sortOrder)
  }

  /**
   * `sortOrder($record)`: the scope read as an array `target => sortOrder`,
   * indexed by target, in read order.
   */
  function SortOrderMap(rows: seq<Row>, source: int): (m: OrderMap<int>)
    requires UniqueKeys(rows)
    ensures IsOrderMap(m)
  {
    var read := ReadScope(rows, source);
    ReadTargetsDistinct(rows, source);
    OrderMap(Targets(read), Orders(read))
  }

  lemma ReadTargetsDistinct(rows: seq<Row>, source: int)
    requires UniqueKeys(rows)
    ensures Distinct(Targets(ReadScope(rows, source)))
  {
    var read := ReadScope(rows, source);
    var ts := Targets(read);
    forall a, b | 0 <= a < b < |ts| ensures ts[a] != ts[b] {
      assert read[a] in multiset(ScopeRows(rows, source)) && read[b] in multiset(ScopeRows(rows, source));
      assert read[a] in rows && read[b] in rows;
      if ts[a] == ts[b] {
        KeyDeterminesRow(rows, read[a], read[b]);
        ReadHasNoDuplicates(rows, source, a, b);
        assert false;
      }
    }
  }

  /** Two rows of a table with unique keys that share their key are the same row. */
  lemma KeyDeterminesRow(rows: seq<Row>, x: Row, y: Row)
    requires UniqueKeys(rows) && x in rows && y in rows
    requires x.source == y.source && x.target == y.target
    ensures x == y
  {
    var i :| 0 <= i < |rows| && rows[i] == x;
    var j :| 0 <= j < |rows| && rows[j] == y;
  }

  /** A table with unique keys holds each row at most once. */
  lemma {:induction false} NoDuplicateRows(rows: seq<Row>, x: Row)
    requires UniqueKeys(rows)
    ensures multiset(rows)[x] <= 1
    decreases |rows|
  {
    if |rows| > 0 {
      assert rows == [rows[0]] + rows[1..];
      UniqueKeysTail(rows);
      NoDuplicateRows(rows[1..], x);
      if rows[0] == x {
        assert x !in rows[1..] by {
          forall k | 0 <= k < |rows[1..]| ensures rows[1..][k] != x {
            assert rows[1..][k] == rows[k + 1];
            assert k + 1 != 0;
          }
        }
      }
    }
  }

  lemma {:induction false} ScopeRowsNoDuplicates(rows: seq<Row>, source: int, x: Row)
    requires UniqueKeys(rows)
    ensures multiset(ScopeRows(rows, source))[x] <= multiset(rows)[x]
    decreases |rows|
  {
    if |rows| > 0 {
      assert rows == [rows[0]] + rows[1..];
      UniqueKeysTail(rows);
      ScopeRowsNoDuplicates(rows[1..], source, x);
    }
  }

  lemma ReadHasNoDuplicates(rows: seq<Row>, source: int, a: nat, b: nat)
    requires UniqueKeys(rows)
    requires a < b < |ReadScope(rows, source)|
    ensures ReadScope(rows, source)[a] != ReadScope(rows, source)[b]
  {
    var read := ReadScope(rows, source);
    var x := read[a];
    NoDuplicateRows(rows, x);
    ScopeRowsNoDuplicates(rows, source, x);
    assert multiset(read) == multiset(ScopeRows(rows, source));
    RepeatCountsTwice(read, a, b);
  }

  /** An element repeated at a later position occurs at least twice. */
  lemma RepeatCountsTwice<T>(s: seq<T>, a: nat, b: nat)
    requires a < b < |s|
    ensures s[a] == s[b] ==> multiset(s)[s[a]] >= 2
  {
    var x := s[a];
    assert s == s[..b] + [s[b]] + s[b + 1..];
    assert s[..b][a] == x;
    assert multiset(s) == multiset(s[..b]) + multiset{s[b]} + multiset(s[b + 1..]);
  }

  /** Where the row of a key is stored, when there is one. */
  function FindKey(rows: seq<Row>, source: int, target: int): (i: Option<nat>)
    ensures i.None? <==> !HasKey(rows, source, target)
    ensures i.Some? ==> i.value < |rows| && rows[i.value].source == source && rows[i.value].target == target
  {
    if |rows| == 0 then None
    else if rows[0].source == source && rows[0].target == target then Some(0)
    else
      assert forall r :: r in rows ==> r == rows[0] || r in rows[1..];
      match FindKey(rows[1..], source, target)
      case None => None
      case Some(i) => Some(i + 1)
  }

  /** The row stored under a key, when there is one: `lookupAssociation`. */
  function Lookup(rows: seq<Row>, source: int, target: int): (r: Option<Row>)
    ensures r.None? <==> !HasKey(rows, source, target)
    ensures r.Some? ==> r.value in rows && r.value.source == source && r.value.target == target
  {
    match FindKey(rows, source, target)
    case None => None
    case Some(i) => Some(rows[i])
  }

  /**
   * `nextSortOrder`: one more than the largest order in the scope; `++null`
   * gives 1 for an empty scope.
   */
  function NextSortOrder(rows: seq<Row>, source: int): (next: int)
    ensures forall r :: r in rows && r.source == source ==> r.sortOrder < next
    ensures HasScope(rows, source) ==> exists r :: r in rows && r.source == source && r.sortOrder == next - 1
    ensures !HasScope(rows, source) ==> next == 1
  {
    var scope := ScopeRows(rows, source);
    if |scope| == 0 then 1 else MaxOrder(scope) + 1
  }

  predicate HasScope(rows: seq<Row>, source: int) {
    exists r :: r in rows && r.source == source
  }

  function MaxOrder(rows: seq<Row>): (max: int)
    requires |rows| > 0
    ensures forall r :: r in rows ==> r.sortOrder <= max
    ensures exists r :: r in rows && r.sortOrder == max
  {
    if |rows| == 1 then rows[0].sortOrder
    else
      var rest := MaxOrder(rows[1..]);
      assert forall r :: r in rows ==> r == rows[0] || r in rows[1..];
      if rows[0].sortOrder >= rest then rows[0].sortOrder else rest
  }

  /*******************************************
   * WRITES
   *******************************************/

  /** An insert or an update of the row with the same key: what `save()` writes. */
  function Upsert(rows: seq<Row>, row: Row): (result: seq<Row>)
    ensures row in result
    ensures forall r :: r in result ==> r == row || r in rows
    ensures forall r :: r in rows && (r.source != row.source || r.target != row.target) ==> r in result
    ensures UniqueKeys(rows) ==> UniqueKeys(result)
  {
    match FindKey(rows, row.source, row.target)
    case None =>
      var result := rows + [row];
      assert forall r :: r in result ==> r == row || r in rows;
      assert UniqueKeys(rows) ==> UniqueKeys(result) by {
        if UniqueKeys(rows) {
          assert forall i :: 0 <= i < |rows| ==> rows[i].source != row.source || rows[i].target != row.target by {
            forall i | 0 <= i < |rows| ensures rows[i].source != row.source || rows[i].target != row.target {
              assert rows[i] in rows;
            }
          }
          forall i, j | 0 <= i < |result| && 0 <= j < |result| && result[i].source == result[j].source && result[i].target == result[j].target
            ensures i == j
          {
            if i < |rows| && j < |rows| {
              assert result[i] == rows[i] && result[j] == rows[j];
            }
          }
        }
      }
      result
    case Some(k) =>
      var result := rows[k := row];
      assert result[k] == row;
      assert forall r :: r in rows && r != rows[k] ==> r in result by {
        forall r | r in rows && r != rows[k] ensures r in result {
          var j :| 0 <= j < |rows| && rows[j] == r;
          assert result[j] == r;
        }
      }
      assert UniqueKeys(rows) ==> UniqueKeys(result) by {
        if UniqueKeys(rows) {
          forall i, j | 0 <= i < |result| && 0 <= j < |result| && result[i].source == result[j].source && result[i].target == result[j].target
            ensures i == j
          {
            assert rows[i].source == result[i].source && rows[i].target == result[i].target;
            assert rows[j].source == result[j].source && rows[j].target == result[j].target;
          }
        }
      }
      result
  }

  /** The table without the row of one key: what `delete()` removes. */
  function DeleteRow(rows: seq<Row>, source: int, target: int): (result: seq<Row>)
    requires UniqueKeys(rows)
    ensures forall r :: r in result <==> r in rows && (r.source != source || r.target != target)
    ensures UniqueKeys(result)
  {
    match FindKey(rows, source, target)
    case None => rows
    case Some(k) =>
      var result := rows[..k] + rows[k + 1..];
      assert forall i :: 0 <= i < |result| ==> result[i] == rows[if i < k then i else i + 1];
      forall i, j | 0 <= i < |result| && 0 <= j < |result| && result[i].source == result[j].source && result[i].target == result[j].target
        ensures i == j
      {
        var i', j' := if i < k then i else i + 1, if j < k then j else j + 1;
        assert result[i] == rows[i'] && result[j] == rows[j'];
      }
      forall r | r in rows && (r.source != source || r.target != target) ensures r in result {
        var j :| 0 <= j < |rows| && rows[j] == r;
        assert result[if j < k then j else j - 1] == r;
      }
      forall r | r in result ensures r.source != source || r.target != target {
        var i :| 0 <= i < |result| && result[i] == r;
        var i' := if i < k then i else i + 1;
        assert rows[i'] == r && i' != k;
      }
      result
  }

  /** `UPDATE … SET sortOrder = order WHERE source = … AND target = …`: nothing when no row matches. */
  function UpdateOrder(rows: seq<Row>, source: int, target: int, order: int): (result: seq<Row>)
    ensures |result| == |rows|
    ensures forall i :: 0 <= i < |rows| ==>
      result[i] == if rows[i].source == source && rows[i].target == target then Row(source, target, order) else rows[i]
    ensures SameKeys(rows, result)
  {
    seq(|rows|, i requires 0 <= i < |rows| =>
      if rows[i].source == source && rows[i].target == target then Row(source, target, order) else rows[i])
  }
  /** Every key of `a` is a key of `b`. */
  ghost predicate KeySubset(a: seq<Row>, b: seq<Row>) {
    forall s, t :: HasKey(a, s, t) ==> HasKey(b, s, t)
  }

  /** Two stores with the same rows at the same places, orders aside. */
  predicate SameKeys(a: seq<Row>, b: seq<Row>) {
    |a| == |b| && forall j :: 0 <= j < |a| ==> a[j].source == b[j].source && a[j].target == b[j].target
  }

  lemma SameKeysHaveKeys(a: seq<Row>, b: seq<Row>)
    requires SameKeys(a, b)
    ensures KeySubset(a, b) && KeySubset(b, a)
  {
    forall s, t | HasKey(a, s, t) ensures HasKey(b, s, t) {
      var r :| r in a && r.source == s && r.target == t;
      var j :| 0 <= j < |a| && a[j] == r;
      assert b[j] in b;
    }
    forall s, t | HasKey(b, s, t) ensures HasKey(a, s, t) {
      var r :| r in b && r.source == s && r.target == t;
      var j :| 0 <= j < |b| && b[j] == r;
      assert a[j] in a;
    }
  }

  /*******************************************
   * FACTS ABOUT READS AND WRITES
   *******************************************/

  /** Every row of a scope appears in its read map, with its stored order. */
  lemma ReadMapHasRow(rows: seq<Row>, row: Row)
    requires UniqueKeys(rows) && row in rows
    ensures
      var m := SortOrderMap(rows, row.source);
      exists i :: 0 <= i < |m.keys| && m.keys[i] == row.target && m.orders[i] == row.sortOrder
  {
    var read := ReadScope(rows, row.source);
    assert row in ScopeRows(rows, row.source);
    assert row in multiset(read);
    var i :| 0 <= i < |read| && read[i] == row;
    var m := SortOrderMap(rows, row.source);
    assert m.keys[i] == row.target && m.orders[i] == row.sortOrder;
  }

  /** The entries of the read map are rows of the scope. */
  lemma ReadMapEntry(rows: seq<Row>, source: int, i: nat)
    requires UniqueKeys(rows) && i < |SortOrderMap(rows, source).keys|
    ensures
      var m := SortOrderMap(rows, source);
      Row(source, m.keys[i], m.orders[i]) in rows
  {
    var read := ReadScope(rows, source);
    assert read[i] in multiset(ScopeRows(rows, source));
  }

  /** The read map has one entry per row of the scope. */
  lemma ReadMapSize(rows: seq<Row>, source: int)
    requires UniqueKeys(rows)
    ensures |SortOrderMap(rows, source).keys| == |ScopeRows(rows, source)|
  {
  }

  lemma UpdateOrderKeepsKeys(rows: seq<Row>, source: int, target: int, order: int)
    requires UniqueKeys(rows)
    ensures UniqueKeys(UpdateOrder(rows, source, target, order))
  {
    var result := UpdateOrder(rows, source, target, order);
    forall i, j | 0 <= i < |result| && 0 <= j < |result| && result[i].source == result[j].source && result[i].target == result[j].target
      ensures i == j
    {
      assert rows[i].source == result[i].source && rows[i].target == result[i].target;
      assert rows[j].source == result[j].source && rows[j].target == result[j].target;
    }
  }
}
