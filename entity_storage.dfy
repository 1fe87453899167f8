/**
 * An abstraction of the parts of Drupal's entity API that the converter
 * calls: the entity type manager hands out one storage per entity type; an
 * entity query with access checking and a single `uuid` equality condition
 * returns the matching IDs; `loadMultiple` loads entities for a list of IDs,
 * keeping that list's order.  The storage of one entity type is an ordered
 * sequence of entities (the order in which the query engine reports them),
 * and the access check is an uninterpreted set of (entity type, ID) pairs
 * the current user may see.
 */
module EntityStorage {
  import opened Wrappers

  type EntityId = nat

  /** An entity: its storage key, its UUID field and its other field values. */
  datatype Entity = Entity(id: EntityId, uuid: string, fields: map<string, string>)

  /** The entity type manager: every registered entity type with the content of its storage. */
  type EntityTypeManager = map<string, seq<Entity>>

  /** The outcome of the query's access check: the (entity type, ID) pairs it lets through. */
  type AccessPolicy = set<(string, EntityId)>

  /** Storage keys are unique within one entity type. */
  predicate UniqueIds(entities: seq<Entity>) {
    forall i, j :: 0 <= i < j < |entities| ==> entities[i].id != entities[j].id
  }

  /** The query's condition: `uuid` equals `value`, and access checking lets the entity through. */
  predicate IsMatch(entityType: string, value: string, access: AccessPolicy, e: Entity) {
    e.uuid == value && (entityType, e.id) in access
  }

  /** The entities that the access-checked `uuid` query selects, in storage order. */
  function Matches(entityType: string, value: string, access: AccessPolicy, entities: seq<Entity>): (r: seq<Entity>)
    ensures |r| <= |entities|
    ensures forall e :: e in r <==> e in entities && IsMatch(entityType, value, access, e)
  {
    if entities == [] then []
    else
      var rest := Matches(entityType, value, access, entities[1..]);
      if IsMatch(entityType, value, access, entities[0]) then [entities[0]] + rest else rest
  }

  /** The IDs of a list of entities, in the same order. */
  function Ids(entities: seq<Entity>): (r: seq<EntityId>)
    ensures |r| == |entities|
    ensures forall i :: 0 <= i < |entities| ==> r[i] == entities[i].id
  {
    seq(|entities|, i requires 0 <= i < |entities| => entities[i].id)
  }

  /** `$storage->getQuery()->accessCheck()->condition('uuid', $value)->execute()`. */
  function ExecuteQuery(entityType: string, value: string, access: AccessPolicy, entities: seq<Entity>): seq<EntityId> {
    Ids(Matches(entityType, value, access, entities))
  }

  /** The entity stored under `id`, if any. */
  function Lookup(entities: seq<Entity>, id: EntityId): (r: Option<Entity>)
    ensures r.Some? ==> r.value in entities && r.value.id == id
    ensures r.None? <==> forall e :: e in entities ==> e.id != id
  {
    if entities == [] then None
    else if entities[0].id == id then Some(entities[0])
    else Lookup(entities[1..], id)
  }

  /** `$storage->loadMultiple($ids)`: the stored entities for `ids`, in the order of `ids`;
      IDs with no stored entity are skipped. */
  function LoadMultiple(entities: seq<Entity>, ids: seq<EntityId>): (r: seq<Entity>)
    ensures |r| <= |ids|
    ensures forall e :: e in r ==> e in entities && e.id in ids
  {
    if ids == [] then []
    else
      var rest := LoadMultiple(entities, ids[1..]);
      match Lookup(entities, ids[0])
      case Some(e) => [e] + rest
      case None => rest
  }

  /** With unique keys, looking up an entity's own ID finds that entity. */
  lemma {:induction false} LookupOwnId(entities: seq<Entity>, i: nat)
    requires UniqueIds(entities)
    requires i < |entities|
    ensures Lookup(entities, entities[i].id) == Some(entities[i])
  {
    if i > 0 {
      assert entities[0].id != entities[i].id;
      assert UniqueIds(entities[1..]) by {
        forall a, b | 0 <= a < b < |entities[1..]| ensures entities[1..][a].id != entities[1..][b].id {
          assert entities[1..][a] == entities[a + 1] && entities[1..][b] == entities[b + 1];
        }
      }
      LookupOwnId(entities[1..], i - 1);
    }
  }

  /** Loading back the IDs of stored entities yields exactly those entities, in order:
      `loadMultiple` is an order-preserving projection. */
  lemma {:induction false} LoadOwnIds(entities: seq<Entity>, selected: seq<Entity>)
    requires UniqueIds(entities)
    requires forall e :: e in selected ==> e in entities
    ensures LoadMultiple(entities, Ids(selected)) == selected
  {
    if selected != [] {
      assert selected[0] in entities;
      var i :| 0 <= i < |entities| && entities[i] == selected[0];
      LookupOwnId(entities, i);
      assert Ids(selected)[1..] == Ids(selected[1..]);
      LoadOwnIds(entities, selected[1..]);
      assert [selected[0]] + selected[1..] == selected;
    }
  }

  /** The query's first match is the first matching entity in storage order. */
  lemma {:induction false} FirstMatch(entityType: string, value: string, access: AccessPolicy, entities: seq<Entity>, i: nat)
    requires i < |entities|
    requires IsMatch(entityType, value, access, entities[i])
    requires forall j :: 0 <= j < i ==> !IsMatch(entityType, value, access, entities[j])
    ensures Matches(entityType, value, access, entities) != []
    ensures Matches(entityType, value, access, entities)[0] == entities[i]
  {
    if i > 0 {
      assert !IsMatch(entityType, value, access, entities[0]);
      forall j | 0 <= j < i - 1 ensures !IsMatch(entityType, value, access, entities[1..][j]) {
        assert entities[1..][j] == entities[j + 1];
      }
      FirstMatch(entityType, value, access, entities[1..], i - 1);
    }
  }
}
