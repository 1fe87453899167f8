/**
 * The route parameter converter that turns a path segment holding an entity
 * UUID into the entity, for parameter definitions such as
 * `type: entity_uuid:node`.
 *
 * The converter object holds one field, the entity type manager, which only
 * its constructor sets; it is modelled as an immutable datatype, so neither
 * `Applies` nor `Convert` can change it, and both are functions of their
 * inputs (repeated calls against the same storage give the same result).
 */
module ParamConverter {
  import opened Wrappers
  import opened Explode
  import opened EntityStorage

  /** The converter family tag that `Applies` looks for. */
  const Tag: string := "entity_uuid"

  /** A route's parameter definition: its string-valued keys, `type` among them or not. */
  type Definition = map<string, string>

  /** The converter; the constructor stores the entity type manager and nothing else. */
  datatype EntityUuidConverter = EntityUuidConverter(entityTypeManager: EntityTypeManager)

  /** The ways `convert` ends without a value. */
  datatype ConvertError =
    | UndefinedType                          // no `type` key: PHP reads null and explode() rejects it
    | UndefinedKind                          // `type` has no second `:`-segment to name the entity type
    | UnknownEntityType(entityType: string)  // getStorage() on an entity type that is not registered
    | ReturnTypeError                        // the returned value does not fit `?EntityInterface`

  /** What `reset()` hands back: the first element, or PHP's `false` for an empty array. */
  datatype PhpValue = Object(entity: Entity) | False

  /** What the caller of `convert` observes: an entity, `null`, or a thrown error. */
  datatype Conversion = Found(entity: Entity) | NotFound | Failed(error: ConvertError)

  /** `$definition['type'] ?? ''`. */
  function TypeOf(definition: Definition): string {
    if "type" in definition then definition["type"] else ""
  }

  /** `applies()`: the first `:`-segment of the type is exactly the tag.  The parameter
      name and the route are not read, so they are not parameters here. */
  predicate Applies(definition: Definition) {
    Split(TypeOf(definition), ':')[0] == Tag
  }

  /** The entity type named by a type string: its second `:`-segment, if there is one. */
  function EntityTypeOf(typeName: string): Option<string> {
    var segments := Split(typeName, ':');
    if |segments| >= 2 then Some(segments[1]) else None
  }

  /** PHP's `reset()` on a list. */
  function Reset(entities: seq<Entity>): PhpValue {
    if entities == [] then False else Object(entities[0])
  }

  /** Everything `convert()` does before its `return`: pick the entity type, fetch its
      storage, run the access-checked `uuid` query, load the IDs and take the first. */
  function FirstLoaded(converter: EntityUuidConverter, value: string, definition: Definition, access: AccessPolicy)
    : Result<PhpValue, ConvertError>
  {
    if "type" !in definition then Failure(UndefinedType)
    else match EntityTypeOf(definition["type"])
      case None => Failure(UndefinedKind)
      case Some(entityType) =>
        if entityType !in converter.entityTypeManager then Failure(UnknownEntityType(entityType))
        else
          var storage := converter.entityTypeManager[entityType];
          Success(Reset(LoadMultiple(storage, ExecuteQuery(entityType, value, access, storage))))
  }

  /** `convert()` as written: `reset()`'s `false` meets the declared `?EntityInterface`
      return type and is rejected, so not-found is never a clean `null`. */
  function ConvertAsWritten(converter: EntityUuidConverter, value: string, definition: Definition, access: AccessPolicy)
    : (r: Conversion)
    ensures r != NotFound
    ensures r.Found? <==> FirstLoaded(converter, value, definition, access).Success?
                          && FirstLoaded(converter, value, definition, access).value.Object?
  {
    match FirstLoaded(converter, value, definition, access)
    case Failure(error) => Failed(error)
    case Success(Object(e)) => Found(e)
    case Success(False) => Failed(ReturnTypeError)
  }

  /** `convert()` as intended: no match is `null`. */
  function Convert(converter: EntityUuidConverter, value: string, definition: Definition, access: AccessPolicy)
    : (r: Conversion)
    ensures r != Failed(ReturnTypeError)
    ensures r.NotFound? <==> FirstLoaded(converter, value, definition, access) == Success(False)
  {
    match FirstLoaded(converter, value, definition, access)
    case Failure(error) => Failed(error)
    case Success(Object(e)) => Found(e)
    case Success(False) => NotFound
  }

  // ---------------------------------------------------------------- applies

  /** `applies()` holds exactly when the type is the bare tag or starts with the tag and a
      colon; the comparison is case-sensitive and nothing is trimmed.  A definition
      without `type` never applies. */
  lemma AppliesIff(definition: Definition)
    ensures Applies(definition) <==> TypeOf(definition) == Tag || Tag + ":" <= TypeOf(definition)
    ensures "type" !in definition ==> !Applies(definition)
  {
    var t := TypeOf(definition);
    var segments := Split(t, ':');
    assert ':' !in Tag;
    // the first segment is a prefix of t, followed by a colon when there are more
    JoinSplit(t, ':');
    if |segments| > 1 {
      assert t == segments[0] + [':'] + Join(segments[1..], ':');
    }
    if t == Tag {
      SplitWithoutSeparator(t, ':');
    } else if Tag + ":" <= t {
      assert t == Tag + [':'] + t[|Tag| + 1..];
      SplitAtFirstSeparator(Tag, ':', t[|Tag| + 1..]);
    }
  }

  /** The bare tag, the tag with an empty entity type, and the tag followed by an entity
      type and further segments all apply. */
  lemma AppliesToTaggedTypes(rest: string)
    ensures Applies(map["type" := Tag])
    ensures Applies(map["type" := Tag + ":" + rest])
  {
    AppliesIff(map["type" := Tag]);
    AppliesIff(map["type" := Tag + ":" + rest]);
  }

  /** Any other first segment does not apply, whatever follows it: there is no case
      folding and no trimming, so `Entity_uuid` or ` entity_uuid` are rejected too. */
  lemma AppliesRejectsOtherFirstSegment(first: string, rest: string)
    requires ':' !in first && first != Tag
    ensures !Applies(map["type" := first])
    ensures !Applies(map["type" := first + ":" + rest])
  {
    SplitWithoutSeparator(first, ':');
    SplitAtFirstSeparator(first, ':', rest);
  }

  // ------------------------------------------------------- entity type name

  /** The entity type is the second `:`-segment; any later segments are ignored. */
  lemma EntityTypeIsSecondSegment(tag: string, entityType: string, rest: string)
    requires ':' !in tag && ':' !in entityType
    ensures EntityTypeOf(tag + ":" + entityType) == Some(entityType)
    ensures EntityTypeOf(tag + ":" + entityType + ":" + rest) == Some(entityType)
  {
    SplitAtFirstSeparator(tag, ':', entityType);
    SplitWithoutSeparator(entityType, ':');
    assert tag + ":" + entityType + ":" + rest == tag + [':'] + (entityType + [':'] + rest);
    SplitAtFirstSeparator(tag, ':', entityType + [':'] + rest);
    SplitAtFirstSeparator(entityType, ':', rest);
  }

  /** There is no entity type exactly when the type string has no colon. */
  lemma EntityTypeMissing(typeName: string)
    ensures EntityTypeOf(typeName) == None <==> ':' !in typeName
  {
    SplitHasSecondSegment(typeName, ':');
  }

  // ---------------------------------------------------------------- convert

  /** The error cases of `convert()`, each in both directions. */
  lemma ConvertFailures(converter: EntityUuidConverter, value: string, definition: Definition,
                        access: AccessPolicy, entityType: string)
    ensures Convert(converter, value, definition, access) == Failed(UndefinedType)
        <==> "type" !in definition
    ensures Convert(converter, value, definition, access) == Failed(UndefinedKind)
        <==> "type" in definition && ':' !in definition["type"]
    ensures Convert(converter, value, definition, access) == Failed(UnknownEntityType(entityType))
        <==> "type" in definition && EntityTypeOf(definition["type"]) == Some(entityType)
             && entityType !in converter.entityTypeManager
  {
    if "type" in definition {
      EntityTypeMissing(definition["type"]);
    }
  }

  /** With the entity type resolved and registered, `convert()` returns the first entity
      of that storage, in storage order, whose `uuid` equals `value` and that the access
      check lets through, however many others also match.  The empty `value` is not
      treated specially. */
  lemma ConvertFindsFirstMatch(converter: EntityUuidConverter, value: string, definition: Definition,
                               access: AccessPolicy, entityType: string, i: nat)
    requires "type" in definition && EntityTypeOf(definition["type"]) == Some(entityType)
    requires entityType in converter.entityTypeManager
    requires UniqueIds(converter.entityTypeManager[entityType])
    requires i < |converter.entityTypeManager[entityType]|
    requires IsMatch(entityType, value, access, converter.entityTypeManager[entityType][i])
    requires forall j :: 0 <= j < i ==> !IsMatch(entityType, value, access, converter.entityTypeManager[entityType][j])
    ensures Convert(converter, value, definition, access) == Found(converter.entityTypeManager[entityType][i])
  {
    var storage := converter.entityTypeManager[entityType];
    var matches := Matches(entityType, value, access, storage);
    FirstMatch(entityType, value, access, storage, i);
    LoadOwnIds(storage, matches);
  }

  /** With the entity type resolved and registered, `convert()` finds nothing exactly when
      no entity of that storage both has `uuid` equal to `value` and passes the access check. */
  lemma ConvertNotFound(converter: EntityUuidConverter, value: string, definition: Definition,
                        access: AccessPolicy, entityType: string)
    requires "type" in definition && EntityTypeOf(definition["type"]) == Some(entityType)
    requires entityType in converter.entityTypeManager
    ensures Convert(converter, value, definition, access) == NotFound
        <==> forall e :: e in converter.entityTypeManager[entityType] ==> !IsMatch(entityType, value, access, e)
  {
    var storage := converter.entityTypeManager[entityType];
    var matches := Matches(entityType, value, access, storage);
    if matches != [] {
      var ids := ExecuteQuery(entityType, value, access, storage);
      assert ids[0] == matches[0].id;
      assert Lookup(storage, ids[0]).Some?;
      assert LoadMultiple(storage, ids) != [];
    }
  }

  /** Whatever `convert()` returns is an entity of the named type's storage whose `uuid`
      equals `value` and that the access check lets through. */
  lemma ConvertSound(converter: EntityUuidConverter, value: string, definition: Definition, access: AccessPolicy)
    requires forall t :: t in converter.entityTypeManager ==> UniqueIds(converter.entityTypeManager[t])
    ensures Convert(converter, value, definition, access).Found? ==>
              && "type" in definition
              && EntityTypeOf(definition["type"]).Some?
              && var entityType := EntityTypeOf(definition["type"]).value;
              && entityType in converter.entityTypeManager
              && var e := Convert(converter, value, definition, access).entity;
              && e in converter.entityTypeManager[entityType]
              && e.uuid == value
              && (entityType, e.id) in access
  {
    if "type" in definition && EntityTypeOf(definition["type"]).Some? {
      var entityType := EntityTypeOf(definition["type"]).value;
      if entityType in converter.entityTypeManager {
        var storage := converter.entityTypeManager[entityType];
        LoadOwnIds(storage, Matches(entityType, value, access, storage));
      }
    }
  }

  /** `convert()` reads only the second `:`-segment and never re-checks the tag:
      `"<tag>:<type>:<anything>"` converts like `"<tag>:<type>"`. */
  lemma ConvertIgnoresLaterSegments(converter: EntityUuidConverter, value: string, definition: Definition,
                                    access: AccessPolicy, tag: string, entityType: string, rest: string)
    requires ':' !in tag && ':' !in entityType
    ensures Convert(converter, value, definition["type" := tag + ":" + entityType + ":" + rest], access)
         == Convert(converter, value, definition["type" := tag + ":" + entityType], access)
  {
    EntityTypeIsSecondSegment(tag, entityType, rest);
  }

  /** A definition of type `entity_uuid` passes `applies()` yet has no entity type for
      `convert()` to use. */
  lemma AppliesWithoutEntityType(converter: EntityUuidConverter, value: string, access: AccessPolicy)
    ensures Applies(map["type" := "entity_uuid"])
    ensures Convert(converter, value, map["type" := "entity_uuid"], access) == Failed(UndefinedKind)
  {
    AppliesIff(map["type" := "entity_uuid"]);
    EntityTypeMissing("entity_uuid");
  }

  // ---------------------------------------------- the not-found return value

  /** The code as written and the intended conversion agree except on no match, where the
      code as written throws instead of returning `null`. */
  lemma AsWrittenDiffersOnlyOnNoMatch(converter: EntityUuidConverter, value: string, definition: Definition,
                                      access: AccessPolicy)
    ensures ConvertAsWritten(converter, value, definition, access)
         == if Convert(converter, value, definition, access) == NotFound then Failed(ReturnTypeError)
            else Convert(converter, value, definition, access)
  {
  }

  /** A registered entity type whose storage is empty: the code as written fails with a
      type error where `null` is intended. */
  lemma AsWrittenRejectsNoMatch(entityType: string, value: string, access: AccessPolicy)
    requires ':' !in entityType
    ensures ConvertAsWritten(EntityUuidConverter(map[entityType := []]), value, map["type" := Tag + ":" + entityType], access)
         == Failed(ReturnTypeError)
    ensures Convert(EntityUuidConverter(map[entityType := []]), value, map["type" := Tag + ":" + entityType], access)
         == NotFound
  {
    EntityTypeIsSecondSegment(Tag, entityType, "");
  }
}
