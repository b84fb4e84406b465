/**
 * The association query object the field service fills in and the
 * association service saves from: its source attribute and its cached
 * result, the pinned list of associations the field should end up with.
 */
module Queries {
  import opened OrderMaps
  import opened AssociationStore
  import opened Decimal

  /** A query attribute's PHP value, as far as the services look at it. */
  datatype AttributeValue = Null | Bool(b: bool) | Int(i: int) | Str(s: string)

  class AssociationQuery {
    var source: AttributeValue
    var cachedResult: Option<seq<Association>>

    constructor()
      ensures source == Null && cachedResult == None
    {
      source := Null;
      cachedResult := None;
    }

    /** `setCachedResult`: pins the list of associations; the source is untouched. */
    method SetCachedResult(models: seq<Association>)
      modifies this
      ensures cachedResult == Some(models) && source == old(source)
    {
      cachedResult := Some(models);
    }
  }

  /**
   * The scope a query's source attribute names: an element id. `false`, a
   * missing source or anything else names no scope.
   */
  function ScopeOf(source: AttributeValue): Option<int> {
    match source
    case Int(id) => Some(id)
    case _ => None
  }

  /**
   * `resolveStringAttribute`: a string is returned as it is, an integer as
   * its decimal text, anything else (null, a boolean) as null.
   */
  function ResolveStringAttribute(value: AttributeValue): (r: Option<string>)
    ensures value.Str? ==> r == Some(value.s)
    ensures value.Int? ==> r.Some? && ParseInt(r.value) == Some(value.i)
    ensures (value.Null? || value.Bool?) <==> r.None?
  {
    match value
    case Str(s) => Some(s)
    case Int(i) => IntTextRoundTrip(i); Some(IntText(i))
    case _ => None
  }
}
