/**
 * The field service: how a field's value narrows an element query (by
 * target, or by having no or some associations), and how a raw field value
 * becomes an association query whose cached result lists the associations
 * the field should end up with.
 */
module SortableFields {
  import opened OrderMaps
  import opened AssociationStore
  import opened Queries
  import opened Decimal

  /*******************************************
   * MODIFY ELEMENT QUERY
   *******************************************/

  /** The association table a concrete field service works on: its alias and its source column. */
  datatype Table = Table(alias: string, sourceAttribute: string)

  /** `'{{%' . TABLE_ALIAS . '}}'`. */
  function TableName(table: Table): string {
    "{{%" + table.alias + "}}"
  }

  /** A value handed to `modifyElementsQuery`. */
  datatype CriteriaValue = Absent | Flag(b: bool) | Word(text: string) | Target

  /** A condition added to the element query. */
  datatype Condition =
    | TargetCondition(fieldId: int, value: CriteriaValue)  // joined on the table, filtered on the field and the target
    | EmptyCondition(subSelect: string)                    // a count of the element's associations compared with 0

  /** The element query the field narrows; only an `ElementQuery` can be narrowed. */
  class ElementsQuery {
    const isElementQuery: bool
    var conditions: seq<Condition>
    var distinct: bool

    constructor(isElementQuery: bool)
      ensures this.isElementQuery == isElementQuery && conditions == [] && !distinct
    {
      this.isElementQuery := isElementQuery;
      conditions := [];
      distinct := false;
    }
  }

  /** The start of the sub-select, up to the field id. */
  function SubSelectHead(alias: string, name: string, sourceAttribute: string): string {
    "(select count([[" + alias + "." + sourceAttribute + "]]) from " + name +
    " {{" + alias + "}} where [[" + alias + "." + sourceAttribute + "]] = [[elements.id]] and [[" + alias + ".fieldId]] = "
  }

  /**
   * `emptyValueSubSelect`: the number of the element's associations in this
   * field, compared with 0 by `operator`.
   */
  function EmptyValueSubSelect(alias: string, name: string, sourceAttribute: string, fieldId: int, operator: string): string {
    SubSelect(SubSelectHead(alias, name, sourceAttribute), fieldId, operator)
  }

  /** A sub-select from its head: the field id, the closing parenthesis, and the comparison with 0. */
  function SubSelect(head: string, fieldId: int, operator: string): (r: string)
    ensures |r| >= |head| + |operator| + 4
    ensures r[..|head|] == head
    ensures r[|r| - |operator| - 4..|r| - |operator| - 2] == ") "
    ensures r[|r| - |operator| - 2..] == operator + " 0"
    ensures ParseInt(r[|head|..|r| - |operator| - 4]) == Some(fieldId)
  {
    var id := IntText(fieldId);
    SubSelectPieces(head, id, operator);
    IntTextRoundTrip(fieldId);
    head + id + ") " + operator + " 0"
  }

  /** Where the pieces of a sub-select sit in it. */
  lemma SubSelectPieces(head: string, id: string, operator: string)
    ensures
      var r := head + id + ") " + operator + " 0";
      && |r| == |head| + |id| + |operator| + 4
      && r[..|head|] == head
      && r[|head|..|r| - |operator| - 4] == id
      && r[|r| - |operator| - 4..|r| - |operator| - 2] == ") "
      && r[|r| - |operator| - 2..] == operator + " 0"
  {
    var r := head + id + ") " + operator + " 0";
    assert r[..|head|] == head;
    assert r[|head|..|r| - |operator| - 4] == id;
    assert r[|r| - |operator| - 4..|r| - |operator| - 2] == ") ";
    assert r[|r| - |operator| - 2..] == operator + " 0";
  }

  /** The operator `modifyElementsQueryForEmptyValue` compares the count with. */
  function EmptyOperator(keyword: string): (op: string)
    ensures op == "!=" <==> keyword == ":notempty:"
    ensures op != "!=" ==> op == "="
  {
    if keyword == ":notempty:" then "!=" else "="
  }

  /** The condition `modifyElementsQueryForEmptyValue` adds for a keyword. */
  function EmptyValueCondition(table: Table, fieldId: int, keyword: string): Condition {
    EmptyCondition(EmptyValueSubSelect(table.alias, TableName(table), table.sourceAttribute, fieldId, EmptyOperator(keyword)))
  }

  /**
   * The condition `modifyElementsQueryForStringValue` adds: `not :empty:` is
   * read as `:notempty:`; the two keywords ask for some or for no
   * associations; any other string is a target.
   */
  function StringCondition(table: Table, fieldId: int, value: string): (c: Condition)
    ensures c.EmptyCondition? <==> value == ":empty:" || value == ":notempty:" || value == "not :empty:"
    ensures c.TargetCondition? ==> c == TargetCondition(fieldId, Word(value))
    ensures value == ":empty:" ==> c == EmptyValueCondition(table, fieldId, ":empty:")
    ensures value == ":notempty:" || value == "not :empty:" ==> c == EmptyValueCondition(table, fieldId, ":notempty:")
  {
    var keyword := if value == "not :empty:" then ":notempty:" else value;
    if keyword == ":notempty:" || keyword == ":empty:" then EmptyValueCondition(table, fieldId, keyword)
    else TargetCondition(fieldId, Word(keyword))
  }

  /** Whether `modifyElementsQuery` narrows the query at all. */
  predicate Narrows(isElementQuery: bool, value: CriteriaValue) {
    isElementQuery && !value.Absent? && value != Flag(false)
  }

  /** `modifyElementsQueryForTargetValue`: the target condition, on a distinct query (its joins are not modelled). */
  method ModifyForTargetValue(fieldId: int, query: ElementsQuery, value: CriteriaValue)
    modifies query
    ensures query.conditions == old(query.conditions) + [TargetCondition(fieldId, value)]
    ensures query.distinct
  {
    query.conditions := query.conditions + [TargetCondition(fieldId, value)];
    query.distinct := true;
  }

  /** `modifyElementsQueryForEmptyValue`. */
  method ModifyForEmptyValue(table: Table, fieldId: int, query: ElementsQuery, keyword: string)
    modifies query
    ensures query.conditions == old(query.conditions) + [EmptyValueCondition(table, fieldId, keyword)]
    ensures query.distinct == old(query.distinct)
  {
    var operator := if keyword == ":notempty:" then "!=" else "=";
    query.conditions := query.conditions + [EmptyCondition(EmptyValueSubSelect(table.alias, TableName(table), table.sourceAttribute, fieldId, operator))];
  }

  /** `modifyElementsQueryForStringValue`. */
  method ModifyForStringValue(table: Table, fieldId: int, query: ElementsQuery, value: string)
    modifies query
    ensures query.conditions == old(query.conditions) + [StringCondition(table, fieldId, value)]
    ensures query.distinct == (old(query.distinct) || StringCondition(table, fieldId, value).TargetCondition?)
  {
    var value := value;
    if value == "not :empty:" {
      value := ":notempty:";
    }
    if value == ":notempty:" || value == ":empty:" {
      ModifyForEmptyValue(table, fieldId, query, value);
      return;
    }
    ModifyForTargetValue(fieldId, query, Word(value));
  }

  /**
   * `modifyElementsQuery`: `null` leaves the query alone, and so does a query
   * that is not an `ElementQuery`; `false` (no element can match) is passed
   * back; a string goes to the string path, anything else is a target.
   */
  method ModifyElementsQuery(table: Table, fieldId: int, query: ElementsQuery, value: CriteriaValue) returns (r: Option<bool>)
    modifies query
    ensures r == Some(false) <==> query.isElementQuery && value == Flag(false)
    ensures r != Some(true)
    ensures !Narrows(query.isElementQuery, value) ==>
      query.conditions == old(query.conditions) && query.distinct == old(query.distinct)
    ensures Narrows(query.isElementQuery, value) && value.Word? ==>
      && query.conditions == old(query.conditions) + [StringCondition(table, fieldId, value.text)]
      && query.distinct == (old(query.distinct) || StringCondition(table, fieldId, value.text).TargetCondition?)
    ensures Narrows(query.isElementQuery, value) && !value.Word? ==>
      query.conditions == old(query.conditions) + [TargetCondition(fieldId, value)] && query.distinct
  {
    if value.Absent? || !query.isElementQuery {
      return None;
    }
    if value == Flag(false) {
      return Some(false);
    }
    if value.Word? {
      ModifyForStringValue(table, fieldId, query, value.text);
      return None;
    }
    ModifyForTargetValue(fieldId, query, value);
    return None;
  }

  /** Two sub-selects with the same head and field differ in their operator only. */
  lemma SubSelectsDifferInOperator(head: string, fieldId: int, op1: string, op2: string)
    ensures
      var s1 := SubSelect(head, fieldId, op1);
      var s2 := SubSelect(head, fieldId, op2);
      s1[..|s1| - |op1| - 2] == s2[..|s2| - |op2| - 2]
  {
    var common := head + IntText(fieldId) + ") ";
    var s1 := SubSelect(head, fieldId, op1);
    var s2 := SubSelect(head, fieldId, op2);
    assert s1 == common + (op1 + " 0");
    assert s2 == common + (op2 + " 0");
    assert s1[..|common|] == common;
    assert s2[..|common|] == common;
  }

  /** `not :empty:` is read as `:notempty:`: both add the same condition. */
  lemma NotEmptySynonym(table: Table, fieldId: int)
    ensures StringCondition(table, fieldId, "not :empty:") == StringCondition(table, fieldId, ":notempty:")
    ensures StringCondition(table, fieldId, ":notempty:") != StringCondition(table, fieldId, ":empty:")
  {
    EmptyConditionsDiffer(table, fieldId);
  }

  /** The `:notempty:` condition compares the count with `!=`, the `:empty:` one with `=`, and nothing else differs. */
  lemma EmptyConditionsDiffer(table: Table, fieldId: int)
    ensures
      var some := EmptyValueCondition(table, fieldId, ":notempty:").subSelect;
      var none := EmptyValueCondition(table, fieldId, ":empty:").subSelect;
      && some[|some| - 4..] == "!= 0" && none[|none| - 3..] == "= 0"
      && some[..|some| - 4] == none[..|none| - 3]
  {
    var head := SubSelectHead(table.alias, TableName(table), table.sourceAttribute);
    assert EmptyValueCondition(table, fieldId, ":notempty:").subSelect == SubSelect(head, fieldId, "!=");
    assert EmptyValueCondition(table, fieldId, ":empty:").subSelect == SubSelect(head, fieldId, "=");
    OperatorsDiffer(head, fieldId);
  }

  /** The sub-selects comparing with `!=` and with `=` share everything before the operator. */
  lemma OperatorsDiffer(head: string, fieldId: int)
    ensures
      var some := SubSelect(head, fieldId, "!=");
      var none := SubSelect(head, fieldId, "=");
      && some[|some| - 4..] == "!= 0" && none[|none| - 3..] == "= 0"
      && some[..|some| - 4] == none[..|none| - 3]
  {
    SubSelectsDifferInOperator(head, fieldId, "!=", "=");
  }

  /*******************************************
   * NORMALIZE VALUE
   *******************************************/

  /** The element a field value belongs to; it may not be saved yet. */
  datatype Element = Element(id: Option<int>)

  /** A raw field value: a query already, a list of inputs, a string, or anything else. */
  datatype FieldValue<V> = Existing(query: AssociationQuery) | Inputs(values: seq<V>) | Text(text: string) | Scalar

  /** The source `normalizeQuery` gives the query: the element's id, or `false` without one. */
  function SourceFor(element: Option<Element>): (v: AttributeValue)
    ensures v == Bool(false) <==> element.None? || element.value.id.None?
    ensures v != Bool(false) ==> v == Int(element.value.id.value)
  {
    if element.None? || element.value.id.None? then Bool(false) else Int(element.value.id.value)
  }

  /**
   * The associations `normalizeQueryInputValues` builds from the inputs and
   * the sort order they leave, each input handed to `hook` (the
   * `normalizeQueryInputValue` of a concrete field service) with the sort
   * order the previous one left.
   */
  function Threaded<V>(values: seq<V>, hook: (V, int) -> (Association, int), sortOrder: int): (r: (seq<Association>, int))
    ensures |r.0| == |values|
  {
    if |values| == 0 then ([], sortOrder)
    else
      var (models, next) := Threaded(values[..|values| - 1], hook, sortOrder);
      var (model, last) := hook(values[|values| - 1], next);
      (models + [model], last)
  }

  /** One association per input, each the hook's result for that input. */
  lemma {:induction false} ThreadedPerInput<V>(values: seq<V>, hook: (V, int) -> (Association, int), sortOrder: int, i: nat)
    requires i < |values|
    ensures Threaded(values, hook, sortOrder).0[i] == hook(values[i], Threaded(values[..i], hook, sortOrder).1).0
    decreases |values|
  {
    if i < |values| - 1 {
      var front := values[..|values| - 1];
      ThreadedPerInput(front, hook, sortOrder, i);
      assert front[..i] == values[..i];
    } else {
      assert values[..|values| - 1] == values[..i];
    }
  }

  /**
   * With a hook that gives each input the current sort order and counts up
   * through the by-reference `int &$sortOrder` of `normalizeQueryInputValue`,
   * the associations are numbered from the starting order in input order.
   */
  lemma {:induction false} CountingHookNumbers<V>(values: seq<V>, hook: (V, int) -> (Association, int), sortOrder: int)
    requires forall v, n :: hook(v, n).1 == n + 1 && hook(v, n).0.sortOrder == Some(n)
    ensures Threaded(values, hook, sortOrder).1 == sortOrder + |values|
    ensures forall i :: 0 <= i < |values| ==> Threaded(values, hook, sortOrder).0[i].sortOrder == Some(sortOrder + i)
    decreases |values|
  {
    if |values| > 0 {
      var front := values[..|values| - 1];
      CountingHookNumbers(front, hook, sortOrder);
      var (models, next) := Threaded(front, hook, sortOrder);
      var r := Threaded(values, hook, sortOrder);
      assert r.0 == models + [hook(values[|values| - 1], next).0];
      forall i | 0 <= i < |values| ensures r.0[i].sortOrder == Some(sortOrder + i) {
        if i < |values| - 1 {
          assert r.0[i] == models[i];
        }
      }
    }
  }

  /** The cached result `normalizeQueryValue` leaves for a value that is not a query already. */
  function CachedResultFor<V>(value: FieldValue<V>, hook: (V, int) -> (Association, int), previous: Option<seq<Association>>): (r: Option<seq<Association>>)
    requires !value.Existing?
    ensures value.Inputs? ==> r.Some? && |r.value| == |value.values|
    ensures value == Text("") ==> r == Some([])
    ensures !value.Inputs? && value != Text("") ==> r == previous
  {
    match value
    case Inputs(values) => Some(Threaded(values, hook, 1).0)
    case Text(text) => if text == "" then Some([]) else previous
    case Scalar => previous
  }

  /** `normalizeQuery`. */
  method NormalizeQuery(query: AssociationQuery, element: Option<Element>)
    modifies query
    ensures query.source == SourceFor(element) && query.cachedResult == old(query.cachedResult)
  {
    if element.None? || element.value.id.None? {
      query.source := Bool(false);
    } else {
      query.source := Int(element.value.id.value);
    }
  }

  /** `normalizeQueryInputValues`: one association per input, the sort order threaded from 1. */
  method NormalizeQueryInputValues<V>(query: AssociationQuery, values: seq<V>, hook: (V, int) -> (Association, int))
    modifies query
    ensures query.cachedResult == Some(Threaded(values, hook, 1).0) && query.source == old(query.source)
  {
    var models := [];
    var sortOrder := 1;
    var i := 0;
    while i < |values|
      invariant 0 <= i <= |values|
      invariant (models, sortOrder) == Threaded(values[..i], hook, 1)
    {
      assert values[..i + 1][..i] == values[..i];
      var model;
      model, sortOrder := hook(values[i], sortOrder).0, hook(values[i], sortOrder).1;
      models := models + [model];
      i := i + 1;
    }
    assert values[..i] == values;
    query.SetCachedResult(models);
  }

  /** `normalizeQueryEmptyValue`: an empty list, so that saving removes every association. */
  method NormalizeQueryEmptyValue(query: AssociationQuery)
    modifies query
    ensures query.cachedResult == Some([]) && query.source == old(query.source)
  {
    query.SetCachedResult([]);
  }

  /** `normalizeQueryValue`. */
  method NormalizeQueryValue<V>(query: AssociationQuery, value: FieldValue<V>, element: Option<Element>, hook: (V, int) -> (Association, int))
    requires !value.Existing?
    modifies query
    ensures query.source == SourceFor(element)
    ensures query.cachedResult == CachedResultFor(value, hook, old(query.cachedResult))
  {
    NormalizeQuery(query, element);
    if value.Inputs? {
      NormalizeQueryInputValues(query, value.values, hook);
      return;
    }
    if value == Text("") {
      NormalizeQueryEmptyValue(query);
      return;
    }
  }

  /**
   * `normalizeValue`: a query is returned as it is; anything else gives a new
   * query (from `getQuery`, modelled as a blank one) for the element, filled
   * in from the value.
   */
  method NormalizeValue<V>(value: FieldValue<V>, element: Option<Element>, hook: (V, int) -> (Association, int)) returns (query: AssociationQuery)
    ensures value.Existing? ==> query == value.query
    ensures !value.Existing? ==> fresh(query)
    ensures !value.Existing? ==> query.source == SourceFor(element) && query.cachedResult == CachedResultFor(value, hook, None)
  {
    if value.Existing? {
      return value.query;
    }
    query := new AssociationQuery();
    NormalizeQueryValue(query, value, element, hook);
  }
}
