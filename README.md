# Sortable associations: a Dafny model

This project models the ordering core of the Craft CMS *sortable associations*
library. An association links a **source** element to a **target**. Each
association row stores an integer `sortOrder`, which is scoped to its source.
The library covers three things:

- **Sequential ordering.** `insertSequential` computes which targets must get
  a new order when one target moves to a requested position. The service and
  the `SequentialOrderTrait` each have a copy of it. The trait first runs the
  repair pass `ensureSequential`.
- **The synchronisation service (`SortableAssociations`).** It associates and
  dissociates single records, re-orders a scope, and `save`s a whole desired
  list inside one transaction.
- **The field service (`SortableFields`).** It narrows element queries by an
  association field, and turns a field's raw value into an association query
  with a pinned ("cached") result list.

Modules:

| module | file | what it holds |
|---|---|---|
| `OrderMaps` | `order_maps.dfy` | the PHP array operations the algorithm uses, on an ordered map `OrderMap(keys, orders)` |
| `SequentialOrder` | `sequential_order.dfy` | `ensureSequential` (an in-place method over an `array<int>`), and both copies of `insertSequential` |
| `SequentialOrderProps` | `sequential_order_props.dfy` | properties of both, on any array |
| `DenseReposition` | `dense_reposition.dfy` | on a dense 1..N array, a reposition is exactly a move |
| `RangeEndFinding` | `range_end_finding.dfy` | the defect in the code as written (see Findings) |
| `AssociationStore` | `association_store.dfy` | the association table as a sequence of rows, and its reads and writes |
| `ServiceSpec` | `service_spec.dfy` | one function per service operation, giving the outcome and the new table |
| `Service` | `service.dfy` | class `SortableAssociations`, whose methods update the table field and are proved equal to `ServiceSpec` |
| `ServiceProps` | `service_props.dfy` | what the service operations guarantee |
| `Decimal` | `decimal.dfy` | decimal text of integers, used by `resolveStringAttribute` |
| `Queries` | `query.dfy` | class `AssociationQuery` (source attribute and cached result), and `resolveStringAttribute` |
| `SortableFields` | `sortable_fields.dfy` | query narrowing and value normalisation |

The store is a `seq<Row>`. No two rows share a (source, target) pair. A scope
read (`associationQuery(...)->indexBy(target)->column()`) filters the rows by
source and orders them by `sortOrder`, as
`SortableAssociationQuery::$orderBy = 'sortOrder'` asks. SQL leaves the order
of rows with equal `sortOrder` to the database; the model lists such rows in
table order (a stable sort). A store write may
throw, and `delete()` may return `false`. Both are described by a `Faults`
value: targets whose writes raise, and targets whose delete is vetoed. Every
operation's result is a `Step(outcome, rows)`. Its outcome is
`Returned(bool)` or `Raised`, and it carries the table after the operation.

## Model

| member | source | states |
|---|---|---|
| `OrderMaps.Search` | src/services/SortableAssociations.php:458 | `array_search` over the keys: `None` exactly when the key is absent, otherwise the first index holding it |
| `OrderMaps.SliceStart` | src/services/SortableAssociations.php:466 | `array_slice` offset: a non-negative offset is kept; a negative one counts from the end, clamped at 0 |
| `OrderMaps.RemoveKey` | src/services/SortableAssociations.php:469 | `ArrayHelper::remove`: no value exactly when the key is absent; otherwise the value, and the map without that key, in the same order |
| `OrderMaps.UnionOfDisjoint` | src/services/SortableAssociations.php:490-493 | the PHP array union `+` of key-disjoint maps is their concatenation |
| `OrderMaps.PhpRange` | src/services/SortableAssociations.php:498 | `range(a, b)`: inclusive, and it counts down when `a > b`; the length and every element are given |
| `OrderMaps.FlipCombine` | src/services/SortableAssociations.php:497-500 | `array_flip(array_combine(numbers, keys))` succeeds exactly when the lengths are equal; the keys then get the numbers in order |
| `SequentialOrder.EnsureSequential` | src/services/traits/SequentialOrderTrait.php:105-115 | the in-place pass leaves `Normalize` of the old values in the array |
| `SequentialOrder.Normalize` | src/services/traits/SequentialOrderTrait.php:105-115 | one value per entry |
| `SequentialOrder.AffectedIndex` | src/services/SortableAssociations.php:463 | the furthest affected index is either the key's index or `targetOrder - 1`, and it is below both |
| `SequentialOrder.Position` | src/services/SortableAssociations.php:485-488 | no position exactly when the requested order is not held by another key of the window |
| `SequentialOrder.AssembleSplices` | src/services/SortableAssociations.php:485-495 | the two array unions put the moved key between the two halves of the window |
| `SequentialOrder.PlanInsert` | src/services/SortableAssociations.php:457-495 | the plan is `Absent` exactly when the key is absent |
| `SequentialOrderProps.NormalizeKeepsNonZero` | src/services/traits/SequentialOrderTrait.php:108-109 | a non-zero order is never rewritten |
| `SequentialOrderProps.NormalizeZeroEntries` | src/services/traits/SequentialOrderTrait.php:107-113 | an unset order gets at least the starting counter and at least every value before it, and strictly more than every earlier unset one |
| `SequentialOrderProps.NormalizeLeavesNoZero` | src/services/traits/SequentialOrderTrait.php:109 | after the pass no order is zero |
| `SequentialOrderProps.NormalizeIdempotent` | src/services/traits/SequentialOrderTrait.php:105-115 | a second pass changes nothing |
| `SequentialOrderProps.NormalizeKeepsDuplicates` | src/services/traits/SequentialOrderTrait.php:111-113 | the strict `>` keeps duplicates: `[1, 0]` and `[0, 1]` both become `[1, 1]` |
| `SequentialOrderProps.NormalizeFixesNonZero` | src/services/traits/SequentialOrderTrait.php:108-113 | an array with no zero order (a dense one in particular) is left unchanged |
| `SequentialOrderProps.WindowStart` | src/services/SortableAssociations.php:463-466 | the slice starts at the key's index when that is before `targetOrder - 1`, and at `targetOrder - 1` otherwise |
| `SequentialOrderProps.SentinelOutcomes` | src/services/SortableAssociations.php:457-474 | both copies return `false` exactly when the key is absent; for `targetOrder >= 1` they return `true` exactly when the key's current order equals the requested one |
| `SequentialOrderProps.AsWrittenSentinels` | src/services/SortableAssociations.php:457-474 | the same two sentinels, for the code as written alone; when its `array_combine` succeeds, each assembled key gets one number |
| `SequentialOrderProps.TraitSentinelOutcomes` | src/services/traits/SequentialOrderTrait.php:52-73 | the trait's sentinels, decided on the repaired orders: `false` exactly when absent; `true` exactly when the repaired order (the stored one, when non-zero) equals the request |
| `SequentialOrderProps.RepositionShape` | src/services/SortableAssociations.php:480-495 | the assembled keys hold the moved key and other keys of the window, once each and in their old relative order; they hold only the moved key when no window entry holds the requested order |
| `SequentialOrderProps.RepositionWindow` | src/services/SortableAssociations.php:476-479 | the starting sort order is `min(index + 1, targetOrder)`, and no key before the window is assembled |
| `SequentialOrderProps.AsWrittenUpdatesStayInWindow` | src/services/SortableAssociations.php:462-500 | with the code as written, an update map contains the moved key, begins at the starting sort order and leaves every key before the window untouched |
| `SequentialOrderProps.UpdatesStayInWindow` | src/services/SortableAssociations.php:462-500 | the same for the corrected copy |
| `SequentialOrderProps.CorrectedNumbering` | src/services/SortableAssociations.php:497-500 | the corrected copy never fails `array_combine`, and numbers the assembled keys consecutively from the starting sort order |
| `DenseReposition.MovedIsPermutation` | src/services/SortableAssociations.php:455-501 | moving one key gives a permutation of the keys |
| `DenseReposition.InsertSequentialOnDense` | src/services/SortableAssociations.php:455-501 | for the corrected copy, on a dense 1..N array with a request in 1..N: `true` when the key is already there; otherwise an update map numbering one key per order, from the key's old order (moving forward) or the requested order (moving back) up to N |
| `DenseReposition.PlanForward` | src/services/SortableAssociations.php:462-495 | moving forward on a dense array, the window starts at the key, the position is `target - 1 - index`, and the assembled keys cover the array from the key to the end |
| `DenseReposition.PlanBackward` | src/services/SortableAssociations.php:462-495 | moving back on a dense array, the window starts at `target - 1`, the key goes first, and the assembled keys cover the array from there to the end |
| `DenseReposition.DenseForward` | src/services/SortableAssociations.php:455-501 | moving forward, the corrected copy numbers the assembled keys from the key's old order up to N |
| `DenseReposition.DenseBackward` | src/services/SortableAssociations.php:455-501 | moving back, the corrected copy numbers the assembled keys from the requested order up to N |
| `DenseReposition.AssembleForward` | src/services/SortableAssociations.php:485-495 | slotting the key back among the ones after it, at the requested place, is the moved array from the key on |
| `DenseReposition.AssembleBackward` | src/services/SortableAssociations.php:485-495 | putting the key in front of the window is the moved array from the requested place on |
| `DenseReposition.DenseMoveApplied` | src/services/SortableAssociations.php:497-500 | applying the renumbered moved suffix gives each key its position in the moved array, plus one |
| `SequentialOrderProps.CorrectedFromPlan` | src/services/SortableAssociations.php:497-500 | the corrected copy returns the assembled keys numbered from the starting sort order to its last |
| `DenseReposition.RepositionOnDenseIsMove` | src/services/SortableAssociations.php:455-501 | on a dense array, applying the corrected updates gives exactly the array with the key moved to the requested position, renumbered 1..N |
| `RangeEndFinding.AsWrittenAgreesIff` | src/services/SortableAssociations.php:497-500 | the code as written agrees with the corrected copy exactly when the plan is not a reposition or its starting sort order is 1 |
| `RangeEndFinding.AsWrittenOnDense` | src/services/SortableAssociations.php:497-500 | on a dense array they agree exactly when the key is first, the request is 1, or the key is already in place |
| `RangeEndFinding.AsWrittenMisnumbers` | src/services/SortableAssociations.php:497-500 | moving the third of four dense keys to 4: the corrected copy gives `{d:3, c:4}`, the code as written `{d:3, c:2}` |
| `RangeEndFinding.AsWrittenCombineFails` | src/services/SortableAssociations.php:497-500 | moving the fourth of four dense keys to 2: the corrected copy gives `{d:2, b:3, c:4}`, the code as written fails `array_combine` |
| `RangeEndFinding.TraitAgreesWithoutZeros` | src/services/traits/SequentialOrderTrait.php:52-54 | with no unset order, the trait's copy is the service's code as written |
| `AssociationStore.SortByOrder` | src/db/SortableAssociationQuery.php:33 | the read order is sorted by `sortOrder`, and is a permutation of the rows read |
| `AssociationStore.ScopeRows` | src/services/SortableAssociations.php:306 | exactly the rows of the source |
| `AssociationStore.ReadScope` | src/services/SortableAssociations.php:303-310 | exactly the rows of the source, sorted by `sortOrder` |
| `AssociationStore.ReadHasNoDuplicates` | src/services/SortableAssociations.php:303-310 | a scope read never lists a row twice |
| `AssociationStore.SortOrderMap` | src/services/SortableAssociations.php:303-310 | the target-indexed column is an order map: its targets are distinct |
| `AssociationStore.ReadTargetsDistinct` | src/services/SortableAssociations.php:307 | `indexBy(target)` loses no row: the targets read are distinct |
| `AssociationStore.ReadMapHasRow` | src/services/SortableAssociations.php:303-310 | every row of the scope is in the map, with its own order |
| `AssociationStore.ReadMapEntry` | src/services/SortableAssociations.php:303-310 | every map entry is a row of the scope |
| `AssociationStore.Lookup` | src/services/SortableAssociations.php:388-398 | no row exactly when the (source, target) pair is absent; otherwise that row |
| `AssociationStore.NextSortOrder` | src/services/SortableAssociations.php:316-323 | above every order in the scope and one more than the maximum; 1 for an empty scope (`++null`) |
| `AssociationStore.MaxOrder` | src/services/SortableAssociations.php:319-320 | the maximum order, and it is attained |
| `AssociationStore.Upsert` | src/services/SortableAssociations.php:114 | the saved row is present, other keys keep their rows, and keys stay unique |
| `AssociationStore.DeleteRow` | src/services/SortableAssociations.php:139 | exactly the rows of other keys remain |
| `AssociationStore.UpdateOrder` | src/services/SortableAssociations.php:340-351 | one update sets the order of the matching row only; the keys do not change |
| `ServiceSpec.ReOrderFrom` | src/services/SortableAssociations.php:335-355 | the updates keep the keys and rows outside the scope; `reOrder` never returns `false` |
| `ServiceSpec.Repack` | src/services/SortableAssociations.php:292-295 | the scope's targets, in read order, numbered 1..N |
| `ServiceSpec.AutoReOrder` | src/services/SortableAssociations.php:281-297 | keys and rows outside the scope are kept; it never returns `false` |
| `ServiceSpec.LookupRecord` | src/services/SortableAssociations.php:388-398 | the record's own row when present; none exactly when its key is absent |
| `ServiceSpec.EnsureSortOrder` | src/services/SortableAssociations.php:210-221 | a set order is kept; otherwise the existing row's order; otherwise the next one of the scope |
| `ServiceSpec.SaveRecord` | src/records/SortableAssociation.php:67-73 | a save succeeds exactly when source and target are set and the write does not raise; it upserts the row, and a failed save changes nothing |
| `ServiceSpec.Clamp` | src/services/SortableAssociations.php:233-235 | the order is lowered to the scope's count when above it, and is otherwise kept |
| `ServiceSpec.ApplySortOrder` | src/services/SortableAssociations.php:228-274 | with `insertSequential` as written: keys are kept, `false` is never returned, and the record comes back with the clamped order |
| `ServiceSpec.IntendedApplySortOrder` | src/services/SortableAssociations.php:228-274 | the same steps with the corrected `insertSequential`: keys are kept, `false` is never returned, and the record comes back with the clamped order |
| `ServiceSpec.Associate` | src/services/SortableAssociations.php:106-123 | a missing source or target returns `false` with nothing changed; a raising write raises with nothing changed; the record ends with an order |
| `ServiceSpec.Delete` | src/services/SortableAssociations.php:139-141 | keys stay unique |
| `ServiceSpec.Dissociate` | src/services/SortableAssociations.php:131-148 | an absent association succeeds with nothing changed; `false` exactly when the row exists and its delete is vetoed, and then nothing changes |
| `ServiceSpec.RemoveTarget` | src/services/SortableAssociations.php:173 | exactly the existing models of other targets remain |
| `ServiceSpec.AssociateAllFrom` | src/services/SortableAssociations.php:162-181 | keys stay unique |
| `ServiceSpec.DissociateAllFrom` | src/services/SortableAssociations.php:188-199 | keys stay unique |
| `ServiceSpec.ExistingAssociations` | src/services/SortableAssociations.php:76 | one model per row of the scope, each of the query's source; none without a source |
| `ServiceSpec.Save` | src/services/SortableAssociations.php:69-94 | no cached result is a no-op success; any outcome but `true` leaves the table as it was (rollback) |
| `Service.SortableAssociations.SaveRecord` | src/services/SortableAssociations.php:114 | the table becomes `ServiceSpec.SaveRecord` of the old one |
| `Service.SortableAssociations.Delete` | src/services/SortableAssociations.php:139 | the table becomes `ServiceSpec.Delete` of the old one |
| `Service.SortableAssociations.ReOrder` | src/services/SortableAssociations.php:335-355 | the loop of updates leaves `ServiceSpec.ReOrder` of the old table |
| `Service.SortableAssociations.AutoReOrder` | src/services/SortableAssociations.php:281-297 | the table becomes `ServiceSpec.AutoReOrder` of the old one |
| `Service.SortableAssociations.ExistingAssociation` | src/services/SortableAssociations.php:367-382 | returns the looked-up row; the record gets `ensureSortOrder` only when asked |
| `Service.SortableAssociations.ApplySortOrder` | src/services/SortableAssociations.php:228-274 | the table and saved record are `ServiceSpec.ApplySortOrder` of the old table: a failed `array_combine` raises with the table unchanged |
| `Service.SortableAssociations.Associate` | src/services/SortableAssociations.php:106-123 | the table and saved record are `ServiceSpec.Associate` of the old table |
| `Service.SortableAssociations.Dissociate` | src/services/SortableAssociations.php:131-148 | the table becomes `ServiceSpec.Dissociate` of the old one |
| `Service.SortableAssociations.AssociateAll` | src/services/SortableAssociations.php:162-181 | the loop leaves `ServiceSpec.AssociateAllFrom` of the old table and the existing models |
| `Service.SortableAssociations.DissociateAll` | src/services/SortableAssociations.php:188-199 | the loop leaves `ServiceSpec.DissociateAllFrom` of the old table |
| `Service.SortableAssociations.Save` | src/services/SortableAssociations.php:69-94 | the table becomes `ServiceSpec.Save` of the old one, with the table restored on failure |
| `ServiceProps.ReOrderFromWrites` | src/services/SortableAssociations.php:339-352 | with no raising write, each scope row listed in the updates gets its listed order; every other row is unchanged |
| `ServiceProps.ReOrderWritesAll` | src/services/SortableAssociations.php:335-355 | with no raising write, `reOrder` returns `true` and writes every listed order |
| `ServiceProps.ReOrderFromRaises` | src/services/SortableAssociations.php:339-352 | it raises exactly when some listed target's write raises |
| `ServiceProps.AutoReOrderRenumbers` | src/services/SortableAssociations.php:281-297 | with no raising write, the scope's rows become exactly its targets in read order, numbered 1..N; other scopes are untouched |
| `ServiceProps.ApplySortOrderKeepsSavedOrder` | src/services/SortableAssociations.php:228-247 | a saved row whose order is already within 1..count is left alone, and `true` is returned, as written and as intended |
| `ServiceProps.ApplySortOrderAsIntended` | src/services/SortableAssociations.php:228-247 | when nothing is renumbered, or the renumbering starts at order 1, `applySortOrder` as written does what the intended one does |
| `ServiceProps.LastKeyMovesToCount` | src/services/SortableAssociations.php:455-501 | the last of N keys requested at N: the corrected copy gives it order N alone; as written `range(N, 1)` has one number only for N = 1 (order 1), and `array_combine` fails for N >= 2 |
| `ServiceProps.UniqueMaxReadLast` | src/services/SortableAssociations.php:303-310 | a row with a strictly largest order is read last |
| `ServiceProps.TopRowMovesToCount` | src/services/SortableAssociations.php:455-501 | the same two answers for the scope read whose top row is past its count |
| `ServiceProps.ClampedRecordMovesToCount` | src/services/SortableAssociations.php:228-247 | a record saved past the end, above every other order, comes back clamped to the count N; as written the call then raises with the table unchanged when N >= 2, and writes order 1 when N = 1 |
| `ServiceProps.IntendedClampedRecordMovesToCount` | src/services/SortableAssociations.php:228-247 | with the corrected `insertSequential`, the same record gets the count as its order, in the record and in the table, and nothing else changes |
| `ServiceProps.AssociateKeys` | src/services/SortableAssociations.php:106-123 | no key is lost; the only new key is the record's; on `true` the record's key is present |
| `ServiceProps.ExistingRowForcesReorder` | src/services/SortableAssociations.php:110-112 | for an existing association the `reOrder` flag makes no difference; it saves, then applies the order |
| `ServiceProps.AssociateCanDuplicateOrders` | src/services/SortableAssociations.php:114-120 | a new target saved at an order that is already taken gets `true`, and leaves two rows with order 1 |
| `ServiceProps.DissociateKeys` | src/services/SortableAssociations.php:131-148 | no key appears; only the record's key may go; on `true` it is gone |
| `ServiceProps.DissociateRepacks` | src/services/SortableAssociations.php:139-145 | a permitted delete removes the row and numbers the survivors 1..N in read order; other scopes keep their rows |
| `ServiceProps.AssociateAllKeys` | src/services/SortableAssociations.php:162-181 | no key is lost; new keys are listed ones; on `true` every listed association is present |
| `ServiceProps.AssociateAllRemaining` | src/services/SortableAssociations.php:169-173 | the remaining models are existing ones; every unlisted target stays; on `true` only unlisted targets remain |
| `ServiceProps.DissociateAllKeys` | src/services/SortableAssociations.php:188-199 | no key appears; unlisted keys stay; on `true` every listed key is gone |
| `ServiceProps.SaveSynchronises` | src/services/SortableAssociations.php:72-92 | on `true`: every listed association is present, unlisted rows of the scope are gone, other scopes keep their rows, and no key outside the list is added |
| `Decimal.NatTextRoundTrip` | src/services/SortableAssociations.php:417 | reading back the digits of a natural number gives the number |
| `Decimal.IntTextRoundTrip` | src/services/SortableAssociations.php:417 | parsing the `(string)` of an integer gives the integer back |
| `Queries.ResolveStringAttribute` | src/services/SortableAssociations.php:409-420 | a string is returned as is; an integer as its decimal text, which parses back to it; null and booleans give none |
| `Queries.AssociationQuery.SetCachedResult` | src/services/SortableFields.php:267 | pins the model list and keeps the source |
| `SortableFields.SubSelect` | src/services/SortableFields.php:174-184 | the sub-select starts with the count over the alias's rows for the element and ends `) <op> 0`; the field id between them reads back as `fieldId` |
| `SortableFields.SubSelectsDifferInOperator` | src/services/SortableFields.php:180-183 | two sub-selects with the same table and field agree on everything before the operator |
| `SortableFields.EmptyConditionsDiffer` | src/services/SortableFields.php:156-163 | the `:notempty:` sub-select ends `!= 0`, the `:empty:` one `= 0`, and everything before the operator is the same |
| `SortableFields.EmptyOperator` | src/services/SortableFields.php:156 | `!=` exactly for `:notempty:`, `=` otherwise |
| `SortableFields.StringCondition` | src/services/SortableFields.php:101-116 | an empty-value condition exactly for `:empty:`, `:notempty:` and `not :empty:`, with the matching operator; any other string is a target condition |
| `SortableFields.NotEmptySynonym` | src/services/SortableFields.php:106-113 | `not :empty:` adds the same condition as `:notempty:`, and `:empty:` adds a different one |
| `SortableFields.ModifyForTargetValue` | src/services/SortableFields.php:123-144 | adds the field and target condition, and makes the query distinct |
| `SortableFields.ModifyForEmptyValue` | src/services/SortableFields.php:151-165 | adds the empty-value sub-select condition and nothing else |
| `SortableFields.ModifyForStringValue` | src/services/SortableFields.php:101-116 | adds `StringCondition`; distinct only for a target condition |
| `SortableFields.ModifyElementsQuery` | src/services/SortableFields.php:74-94 | `false` exactly for an element query with value `false`, and never `true`; a null value or a non-element query is left unchanged; a string adds its string condition, sets `distinct` when that is a target condition and otherwise leaves it as it was; any other value adds a target condition and sets `distinct` |
| `SortableFields.SourceFor` | src/services/SortableFields.php:220-222 | `false` exactly when there is no element or it has no id; otherwise the id |
| `SortableFields.Threaded` | src/services/SortableFields.php:262-266 | one model per input value |
| `SortableFields.ThreadedPerInput` | src/services/SortableFields.php:264-265 | each model is the hook applied to its input, with the counter as earlier inputs left it |
| `SortableFields.CountingHookNumbers` | src/services/SortableFields.php:262-266 | with a hook that stamps and advances the counter, the models are numbered from 1 in input order |
| `SortableFields.CachedResultFor` | src/services/SortableFields.php:239-247 | an array pins one model per element; `''` pins the empty list; any other value pins nothing new |
| `SortableFields.NormalizeQuery` | src/services/SortableFields.php:215-223 | sets the source attribute to `SourceFor` and nothing else |
| `SortableFields.NormalizeQueryInputValues` | src/services/SortableFields.php:256-268 | the loop pins the threaded models, starting at sort order 1 |
| `SortableFields.NormalizeQueryEmptyValue` | src/services/SortableFields.php:274-279 | pins the empty list |
| `SortableFields.NormalizeQueryValue` | src/services/SortableFields.php:231-248 | sets the source, then pins `CachedResultFor` the value |
| `SortableFields.NormalizeValue` | src/services/SortableFields.php:197-208 | an existing query is returned as it is; anything else gives a fresh query, normalised |

Behaviour of the code that the model keeps, as written:

- **Scopes are not kept dense.** The example in the docblock of
  `insertSequential` (src/services/SortableAssociations.php:423-449) inserts
  a new key at a taken order and shifts the keys after it. On the service's
  path that shift does not happen: a new target saved at an order another
  row already holds is found already at its order, `insertSequential`
  returns `true`, and the duplicate stays
  (`ServiceProps.AssociateCanDuplicateOrders`).
- **The repair pass keeps duplicates.** `ensureSequential`
  (src/services/traits/SequentialOrderTrait.php:111-113) advances the
  counter only when a kept order is strictly above it, so an order equal to
  the counter leaves a duplicate (`SequentialOrderProps.NormalizeKeepsDuplicates`).
- **The `false` sentinel is dead on the service's path.** `insertIntoOrder`
  (src/services/SortableAssociations.php:265-267) calls `associate` again
  when `insertSequential` returns `false`. The record has just been saved,
  so its target is always found and that branch cannot be reached
  (`ServiceSpec.ApplySortOrder` never returns `false`). The model shows it
  is dead rather than modelling the recursion.
- **`$newOrder` is never read.** `associateAll`
  (src/services/SortableAssociations.php:171) numbers the listed targets in
  `$newOrder`, but nothing reads it; the records keep the `sortOrder` they
  carry.

## Left out

- Database I/O is not modelled. The table is a sequence of rows, and its
  failures are the `Faults` parameter. The query builder, audit columns and
  `setOldAttributes` are not modelled.
- A transaction is a snapshot of the table, restored on rollback. Isolation
  from concurrent writers is not modelled.
- Sites are left out: `targetSiteId`, the `SiteAttribute` trait, and a scope
  wider than the source.
- The record's primary key is taken to be (source, target).
  `getPrimaryKey(true)` plus the target then selects exactly one row. A table
  keyed by an id column is not modelled.
- A failed validation is modelled as a missing source or target. The
  `integerOnly` rule on `sortOrder` is not modelled, because orders are
  integers here.
- `existingAssociations`, `getQuery` and `normalizeQueryInputValue` are
  abstract in the source. The first is modelled as a read of the query's
  scope. The other two are parameters: a fresh query, and a hook that threads
  the sort-order counter.
- `existingAssociations` is assumed to return its models indexed by target
  id, which its abstract declaration does not promise.
  `ArrayHelper::remove($currentModels, $target)` in `associateAll` needs
  that to find a model, and `ServiceSpec.RemoveTarget` and
  `ServiceProps.SaveSynchronises` rely on it. The scope it reads is named by
  the query's source attribute when that is an integer id
  (`Queries.ScopeOf`); a source given as a numeric string such as `"5"`
  names no scope here.
- Rows with equal `sortOrder` are assumed to come back from the database in
  table order. `ORDER BY sortOrder` does not fix their order, so
  `ServiceProps.AutoReOrderRenumbers`, `ServiceProps.DissociateRepacks` and
  the map `insertSequential` receives hold for that one order of ties only.
- `array_combine` with lists of different lengths is modelled as a thrown
  exception (`Raised`) before any write. In PHP 8 it throws a `ValueError`;
  in PHP 7 it warns and returns `false`, which the framework's error
  handler turns into an exception. A `ValueError` is not an `\Exception`, so
  `save` does not catch it and roll back; its transaction is never
  committed, which the model treats as the same rollback. PHP 7 with that
  warning left unconverted, which would go on to write nothing and return
  `true`, is not modelled.
- The query's `getCachedResult` for a scope is the `cachedResult` field. The
  query's own fetching is not modelled.
- `Search`: PHP's loose comparison in `array_search` is not modelled, because
  keys and orders here are integers. A `NULL` order is read as 0.
- `EnsureSequential`: the `(int)` cast of non-integer values is not modelled,
  because orders are integers.
- `Queries.ResolveStringAttribute`: floats and objects with `__toString` are
  not modelled. The value type is null, boolean, integer or string.
- `SortableFields.ModifyForTargetValue`: building the two inner joins is not
  modelled. The query records the field condition, the target condition and
  `distinct`.
- `Db::parseParam` is not modelled. The condition keeps the raw value.
- The recursive re-associate in `insertIntoOrder` is not modelled, because it
  cannot be reached after a successful save.
- A record is a value. An operation returns the updated record, for example
  after `ensureSortOrder` or the clamp. It is not mutated in a caller's list.
- Exceptions other than a raising store write are not modelled. The `Raised`
  outcome stands for a rethrown exception after rollback.

## Findings

| source | as written | input that shows it | evidently intended | confidence | as-written member | corrected member |
|---|---|---|---|---|---|---|
| src/services/SortableAssociations.php:497-500 | the new orders are numbered `range($startingSortOrder, count($order))`. The end is the count of assembled keys, not `start + count - 1`. | Dense `{a:1, b:2, c:3, d:4}`: moving `c` to 4 gives `{d:3, c:2}`; moving `d` to 2 gives `range(2, 3)` for three keys, so `array_combine` fails | number the assembled keys `start, start+1, …`: `{d:3, c:4}` and `{d:2, b:3, c:4}`, i.e. the key moved and the rest renumbered 1..N | high, not executed | `RangeEndFinding.AsWrittenMisnumbers` | `DenseReposition.RepositionOnDenseIsMove` |
| src/services/SortableAssociations.php:228-247 | `applySortOrder` clamps an order past the end of the scope to its count N and hands it to `insertSequential`, which asks `range(N, 1)` for the one key it moves | rows `(1, 10, 1)` and `(1, 20, 5)`, then `associate` of source 1, target 20, order 5: it is clamped to 2, `range(2, 1)` has two numbers for one key, and `array_combine` fails | target 20 gets order 2 and the call returns `true` | high, not executed | `ServiceProps.ClampedRecordMovesToCount` | `ServiceProps.IntendedClampedRecordMovesToCount` |

The code as written is `SequentialOrder.InsertSequentialAsWritten`. The trait's
copy, `SequentialOrder.TraitInsertSequential`, shares the defect. The two
agree exactly when the starting sort order is 1
(`RangeEndFinding.AsWrittenAgreesIff`). The corrected copy is
`SequentialOrder.InsertSequential`.
`RangeEndFinding.AsWrittenCombineFails` exhibits the `array_combine` failure.
The service (`ServiceSpec.ApplySortOrder` and the class method of the same
name) calls the code as written, as the program does. The intended service
step is `ServiceSpec.IntendedApplySortOrder`, which calls the corrected copy;
the two agree whenever the renumbering starts at order 1
(`ServiceProps.ApplySortOrderAsIntended`).
