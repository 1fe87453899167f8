# EntityUuidConverter, modelled in Dafny

This project models the Drupal route parameter converter `EntityUuidConverter`.
A route declares a parameter as `type: entity_uuid:<entity type>`. The converter
turns the UUID held in that path segment into the entity. It has two operations:

- `applies()` decides whether the converter handles a parameter definition.
  It splits the definition's `type` (default `''`) with PHP `explode(':', …)`
  and compares the first segment with `entity_uuid`.
- `convert()` takes the entity type from the second segment of `type`. It fetches
  that type's storage and runs an access-checked entity query with the condition
  `uuid = value`. It loads the matching IDs with `loadMultiple` and returns
  `reset()` of the result, which is the first loaded entity.

Modules:

- `Wrappers`: `Option` and `Result`.
- `Explode`: PHP `explode` with a one-character separator, as `Split`. It cuts at
  every separator, and the empty string gives one empty segment. Its inverse
  partner is `Join`, which is `implode`. Both round trips are proved.
- `EntityStorage`: an abstraction of the Drupal entity API that the converter calls.
  - The entity type manager is a map from entity type names to each storage's
    entities, kept in the order the query engine reports them.
  - The access check is an uninterpreted set of (entity type, ID) pairs that
    the current user may see.
  - The query is a filter over the storage sequence.
  - `loadMultiple` is an order-preserving projection by ID.
- `ParamConverter`: the converter itself.
  - The datatype `EntityUuidConverter` holds its one field, the entity type
    manager. In the source only the constructor sets that field
    (src/ParamConverter/EntityUuidConverter.php:40-42). The datatype is immutable,
    so neither operation can change the converter. Both operations are functions
    of their inputs, so repeated calls against the same storage give the same
    result by construction.
  - `Applies` models `applies()`.
  - `Convert` models `convert()` as intended, and `ConvertAsWritten` models the code
    as it stands (see Findings).

Points where the code behaves differently from a first reading of it:

- `explode()` splits the type string on every colon, not only the first. So
  `entity_uuid:node:extra` converts as `node`, and the later segments are ignored.
- A type of exactly `entity_uuid`, with no colon, does pass `applies()`
  (`AppliesToTaggedTypes`). `convert()` then has no second segment to read
  (`AppliesWithoutEntityType`).
- `convert()` reads `$definition['type']` with no default. The file declares
  `strict_types`, so a definition with no `type` key ends in an error: PHP reads
  `null`, and `explode()` rejects it. The model gives this case its own error,
  `UndefinedType`.
- When `type` has no second segment, PHP warns and passes `null` on to
  `getStorage()`. The model stops there with the error `UndefinedKind`.
- `getStorage()` on an entity type that is not registered throws. The model gives
  this the error `UnknownEntityType`.

## Model

| member | source | states |
|---|---|---|
| `Explode.Split` | src/ParamConverter/EntityUuidConverter.php:64 | explode always yields at least one segment, no segment contains the separator, and the empty string yields exactly one empty segment |
| `Explode.JoinSplit` | src/ParamConverter/EntityUuidConverter.php:64 | joining the segments back with the separator gives the original string, so explode loses nothing |
| `Explode.SplitJoin` | src/ParamConverter/EntityUuidConverter.php:64 | splitting a join of separator-free segments gives back exactly those segments |
| `Explode.SplitWithoutSeparator` | src/ParamConverter/EntityUuidConverter.php:64 | a string without the separator is a single segment, the whole string |
| `Explode.SplitAtFirstSeparator` | src/ParamConverter/EntityUuidConverter.php:48 | the first segment is everything before the first separator, and the other segments are those of the text after it |
| `Explode.SplitHasSecondSegment` | src/ParamConverter/EntityUuidConverter.php:48 | there is a second segment if and only if the separator occurs in the string |
| `EntityStorage.Matches` | src/ParamConverter/EntityUuidConverter.php:51-54 | the query selects exactly the stored entities whose uuid equals the value and that pass the access check, and no more than are stored |
| `EntityStorage.Lookup` | src/ParamConverter/EntityUuidConverter.php:56 | loading an ID finds a stored entity with that ID, and finds none only when no stored entity has that ID |
| `EntityStorage.LoadMultiple` | src/ParamConverter/EntityUuidConverter.php:56 | loadMultiple returns only stored entities whose IDs were asked for, and at most one per requested ID entry |
| `EntityStorage.LookupOwnId` | src/ParamConverter/EntityUuidConverter.php:56 | with unique storage keys, loading an entity's ID finds that very entity |
| `EntityStorage.LoadOwnIds` | src/ParamConverter/EntityUuidConverter.php:56 | with unique storage keys, loading the IDs of stored entities gives back those entities in the same order, so loadMultiple is an order-preserving projection |
| `EntityStorage.FirstMatch` | src/ParamConverter/EntityUuidConverter.php:51-57 | the query's first result is the first matching entity in storage order |
| `ParamConverter.TypeOf` | src/ParamConverter/EntityUuidConverter.php:64 | no ensures; `$definition['type'] ?? ''`, characterized by AppliesIff, which states that a missing `type` reads as the empty string and never applies |
| `ParamConverter.Applies` | src/ParamConverter/EntityUuidConverter.php:63-65 | no ensures; AppliesIff, AppliesToTaggedTypes and AppliesRejectsOtherFirstSegment state what it accepts and rejects |
| `ParamConverter.EntityTypeOf` | src/ParamConverter/EntityUuidConverter.php:48 | no ensures; EntityTypeIsSecondSegment and EntityTypeMissing state that it is the second segment, present exactly when the type holds a colon |
| `ParamConverter.Reset` | src/ParamConverter/EntityUuidConverter.php:57 | no ensures; PHP `reset()` on a list: the first element, or `false` for an empty list; ConvertNotFound and ConvertFindsFirstMatch state its effect on convert |
| `ParamConverter.FirstLoaded` | src/ParamConverter/EntityUuidConverter.php:48-57 | no ensures; the steps of convert before its return; ConvertFailures, ConvertFindsFirstMatch, ConvertNotFound and ConvertSound state its outcomes |
| `EntityStorage.ExecuteQuery` | src/ParamConverter/EntityUuidConverter.php:51-56 | no ensures; the IDs of the query's matches in their order; Matches states which entities they are and FirstMatch which comes first |
| `EntityStorage.Ids` | src/ParamConverter/EntityUuidConverter.php:56 | the list of the entities' IDs, one per entity, in the same order, as handed to loadMultiple |
| `ParamConverter.AppliesIff` | src/ParamConverter/EntityUuidConverter.php:63-65 | applies holds if and only if the type is exactly `entity_uuid` or starts with `entity_uuid:`, and a definition without `type` never applies |
| `ParamConverter.AppliesToTaggedTypes` | src/ParamConverter/EntityUuidConverter.php:64-65 | `entity_uuid`, `entity_uuid:` and `entity_uuid:` followed by anything, further colons included, all apply |
| `ParamConverter.AppliesRejectsOtherFirstSegment` | src/ParamConverter/EntityUuidConverter.php:64-65 | any other first segment is rejected whatever follows it, with no case folding and no trimming |
| `ParamConverter.EntityTypeIsSecondSegment` | src/ParamConverter/EntityUuidConverter.php:48 | the entity type is the second segment, and later segments do not change it |
| `ParamConverter.EntityTypeMissing` | src/ParamConverter/EntityUuidConverter.php:48 | there is no entity type if and only if the type string has no colon |
| `ParamConverter.ConvertAsWritten` | src/ParamConverter/EntityUuidConverter.php:47-57 | as written, convert never returns a clean null, and it returns an entity exactly when reset yields an object |
| `ParamConverter.Convert` | src/ParamConverter/EntityUuidConverter.php:47-58 | convert never fails on its return type, and it returns null exactly when reset of the loaded entities is false |
| `ParamConverter.ConvertFailures` | src/ParamConverter/EntityUuidConverter.php:48-49 | convert fails for a missing `type`, for a type with no colon, and for an unregistered entity type, each if and only if that condition holds |
| `ParamConverter.ConvertFindsFirstMatch` | src/ParamConverter/EntityUuidConverter.php:51-57 | for a registered entity type, convert returns the first stored entity, in storage order, whose uuid equals the value and that passes the access check, even when several match; an empty value is not special |
| `ParamConverter.ConvertNotFound` | src/ParamConverter/EntityUuidConverter.php:51-57 | for a registered entity type, convert finds nothing if and only if no stored entity both has that uuid and passes the access check |
| `ParamConverter.ConvertSound` | src/ParamConverter/EntityUuidConverter.php:48-56 | any entity convert returns comes from the storage of the entity type named by the second segment, has uuid equal to the value, and passes the access check |
| `ParamConverter.ConvertIgnoresLaterSegments` | src/ParamConverter/EntityUuidConverter.php:48 | convert reads only the second segment and does not re-check the tag, so `<tag>:<type>:<anything>` converts like `<tag>:<type>` |
| `ParamConverter.AppliesWithoutEntityType` | src/ParamConverter/EntityUuidConverter.php:48-65 | the type `entity_uuid` passes applies, yet convert fails for want of an entity type |
| `ParamConverter.AsWrittenDiffersOnlyOnNoMatch` | src/ParamConverter/EntityUuidConverter.php:47-57 | the code as written and the intended convert agree on every input except no match, where the code as written fails instead of returning null |
| `ParamConverter.AsWrittenRejectsNoMatch` | src/ParamConverter/EntityUuidConverter.php:57 | with a registered entity type whose storage is empty, the code as written fails with a type error where null is intended |

## Findings

| source | as written | input that shows it | evidently intended | confidence | as-written member | corrected member |
|---|---|---|---|---|---|---|
| src/ParamConverter/EntityUuidConverter.php:47-57 | when nothing matches, `reset()` of the empty array returns `false`, and the declared return type `?EntityInterface` does not accept `false`, so PHP raises a TypeError | definition `type: entity_uuid:node`, with a `node` storage that holds no entity of the requested uuid (`AsWrittenRejectsNoMatch`) | return `null` for no match, which `ParamConverterInterface::convert` documents, in its return annotation, as the value for "not converted" | medium; not executed | `ParamConverter.ConvertAsWritten` | `ParamConverter.Convert` |

## Left out

- The Drupal entity type manager, entity storage, query builder and access-check
  internals are foreign library calls. They are modelled as a map from entity type
  names to ordered entity sequences, plus an uninterpreted set of accessible
  (entity type, ID) pairs.
- The order of the query's results is whatever the storage layer reports. The
  model fixes it as the order of the storage sequence.
- `getStorage()` failing for an unregistered entity type is an abstract error
  result, `UnknownEntityType`. Plugin discovery is not modelled.
- What `getStorage(null)` does after the warning for a missing second segment is
  not modelled. The model reports the error `UndefinedKind` there instead.
- The `$name`, `$route` and `$defaults` arguments are not read by the code, so they
  are not parameters of the model.
- PHP notices and warnings for undefined array keys are not modelled as output.
  Only the error outcome that follows them is modelled.
- Definition values are modelled as strings only. A `type` that holds `null` or a
  non-string value is not modelled.
- `EntityStorage.EntityTypeManager`: the type does not itself force storage keys to be
  unique within one entity type. Drupal guarantees it, and `ConvertFindsFirstMatch`,
  `ConvertSound`, `LookupOwnId` and `LoadOwnIds` assume it through `UniqueIds`.
  With repeated keys, loading by ID can return a different entity of the same ID.
- `EntityStorage.LoadMultiple`: duplicate IDs in the request are not collapsed the
  way a PHP keyed array would collapse them. The query in this model never
  produces duplicates when storage keys are unique.
- Service registration, dependency injection and the routing layer's iteration
  over converters are not part of this model.
