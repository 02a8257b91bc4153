/**
 * Properties of the whole schema model generator: the order in which it
 * fails, duplicate detection, and the key order and contents of the final
 * entity map.
 */
module ModelProperties {
  import opened Wrappers
  import opened OrderedMaps
  import opened SchemaAst
  import opened Entities
  import opened GenerateModel

  /** Index `j` is the first whose name repeats an earlier name. */
  ghost predicate FirstRepeat(names: seq<string>, j: int) {
    && 0 <= j < |names|
    && (exists l :: 0 <= l < j && names[l] == names[j])
    && forall k, l :: 0 <= l < k < j ==> names[l] != names[k]
  }

  lemma FirstRepeatExists(names: seq<string>)
    requires !Distinct(names)
    ensures exists j :: FirstRepeat(names, j)
  {
    var a, b :| 0 <= a < b < |names| && names[a] == names[b];
    var j := 0;
    while !(exists l :: 0 <= l < j && names[l] == names[j])
      invariant 0 <= j <= b
      invariant forall k, l :: 0 <= l < k < j ==> names[l] != names[k]
      decreases b - j
    {
      j := j + 1;
    }
    assert FirstRepeat(names, j);
  }

  lemma {:induction false} AddConcreteEntitiesFirstDuplicate(acc: OrderedMap<ConcreteEntity>, entities: seq<ConcreteEntity>, j: int)
    requires 0 <= j < |entities|
    requires entities[j].name in acc.values || exists l :: 0 <= l < j && entities[l].name == entities[j].name
    requires forall k :: 0 <= k < j ==> entities[k].name !in acc.values
    requires forall k, l :: 0 <= l < k < j ==> entities[l].name != entities[k].name
    ensures AddConcreteEntities(acc, entities) == Err(DuplicateNode(entities[j].name))
    decreases j
  {
    if j > 0 {
      var acc' := acc.Insert(entities[0].name, entities[0]);
      var rest := entities[1..];
      assert rest[j - 1] == entities[j];
      if entities[j].name !in acc.values {
        var l :| 0 <= l < j && entities[l].name == entities[j].name;
        if l > 0 {
          assert rest[l - 1].name == rest[j - 1].name;
        }
      }
      forall k | 0 <= k < j - 1
        ensures rest[k].name !in acc'.values
      {
        assert rest[k] == entities[k + 1];
      }
      forall k, l | 0 <= l < k < j - 1
        ensures rest[l].name != rest[k].name
      {
        assert rest[l] == entities[l + 1] && rest[k] == entities[k + 1];
      }
      AddConcreteEntitiesFirstDuplicate(acc', rest, j - 1);
    }
  }

  lemma {:induction false} AddConcreteEntitiesDistinct(acc: OrderedMap<ConcreteEntity>, entities: seq<ConcreteEntity>)
    requires forall k :: 0 <= k < |entities| ==> entities[k].name !in acc.values
    requires forall k, l :: 0 <= l < k < |entities| ==> entities[l].name != entities[k].name
    ensures AddConcreteEntities(acc, entities) == Ok(acc.InsertAll(NamedConcrete(entities)))
    decreases |entities|
  {
    if entities != [] {
      var acc' := acc.Insert(entities[0].name, entities[0]);
      assert NamedConcrete(entities)[1..] == NamedConcrete(entities[1..]);
      forall k | 0 <= k < |entities| - 1
        ensures entities[1..][k].name !in acc'.values
      {
        assert entities[1..][k] == entities[k + 1];
      }
      AddConcreteEntitiesDistinct(acc', entities[1..]);
    }
  }

  /**
   * The first object type whose fields fail decides the error, before any
   * duplicate name or union is looked at.
   */
  lemma ConcreteErrorsComeFirst(definitions: DefinitionNodes, scalars: set<string>, i: int)
    requires 0 <= i < |definitions.objectTypes|
    requires GenerateConcreteEntity(definitions.objectTypes[i], scalars).Err?
    requires forall k :: 0 <= k < i ==> GenerateConcreteEntity(definitions.objectTypes[k], scalars).Ok?
    ensures GenerateModelSpec(definitions, scalars) == Err(GenerateConcreteEntity(definitions.objectTypes[i], scalars).error)
  {
    var objectTypes := definitions.objectTypes;
    var built := GenerateConcreteEntities(objectTypes, scalars);
    assert built.Err?;
    var j :| 0 <= j < |objectTypes| && GenerateConcreteEntity(objectTypes[j], scalars) == Err(built.error) &&
             forall k :: 0 <= k < j ==> GenerateConcreteEntity(objectTypes[k], scalars).Ok?;
    assert !(j < i) && !(i < j);
  }

  /** When the object types build, the first repeated name is reported and no model is produced. */
  lemma DuplicateObjectTypeFails(definitions: DefinitionNodes, scalars: set<string>, j: int)
    requires GenerateConcreteEntities(definitions.objectTypes, scalars).Ok?
    requires FirstRepeat(ObjectTypeNames(definitions.objectTypes), j)
    ensures GenerateModelSpec(definitions, scalars) == Err(DuplicateNode(definitions.objectTypes[j].name))
  {
    var objectTypes := definitions.objectTypes;
    var entities := GenerateConcreteEntities(objectTypes, scalars).value;
    var names := ObjectTypeNames(objectTypes);
    forall k | 0 <= k < |entities|
      ensures entities[k].name == names[k]
    {
      assert GenerateConcreteEntity(objectTypes[k], scalars) == Ok(entities[k]);
    }
    AddConcreteEntitiesFirstDuplicate(Empty(), entities, j);
  }

  /** Two object types sharing a name make generation fail with a duplicate error naming a shared name. */
  lemma SharedNameFails(definitions: DefinitionNodes, scalars: set<string>, a: int, b: int)
    requires GenerateConcreteEntities(definitions.objectTypes, scalars).Ok?
    requires 0 <= a < b < |definitions.objectTypes|
    requires definitions.objectTypes[a].name == definitions.objectTypes[b].name
    ensures var r := GenerateModelSpec(definitions, scalars);
      r.Err? && r.error.DuplicateNode? &&
      exists l, k :: 0 <= l < k < |definitions.objectTypes| &&
        definitions.objectTypes[l].name == definitions.objectTypes[k].name == r.error.name
  {
    var names := ObjectTypeNames(definitions.objectTypes);
    assert names[a] == names[b];
    FirstRepeatExists(names);
    var j :| FirstRepeat(names, j);
    var l :| 0 <= l < j && names[l] == names[j];
    DuplicateObjectTypeFails(definitions, scalars, j);
    var objectTypes := definitions.objectTypes;
    assert objectTypes[l].name == names[l] && objectTypes[j].name == names[j];
    assert 0 <= l < j < |objectTypes| && objectTypes[l].name == objectTypes[j].name;
  }

  /** With distinct names, the concrete reduce inserts every entity under its name. */
  lemma DistinctConcreteMap(objectTypes: seq<ObjectTypeDefinition>, scalars: set<string>)
    requires GenerateConcreteEntities(objectTypes, scalars).Ok?
    requires Distinct(ObjectTypeNames(objectTypes))
    ensures var named := NamedConcrete(GenerateConcreteEntities(objectTypes, scalars).value);
      Keys(named) == ObjectTypeNames(objectTypes) &&
      ConcreteEntityMap(objectTypes, scalars) == Ok(MapFromEntries(named))
  {
    var entities := GenerateConcreteEntities(objectTypes, scalars).value;
    EntityNamesAreObjectTypeNames(objectTypes, scalars);
    assert forall k, l :: 0 <= l < k < |entities| ==> entities[l].name != entities[k].name by {
      assert forall k :: 0 <= k < |entities| ==> ObjectTypeNames(objectTypes)[k] == entities[k].name;
    }
    AddConcreteEntitiesDistinct(Empty(), entities);
  }

  /**
   * With distinct names, the concrete map holds the object types' names in
   * declared order, each mapped to the entity built from it.
   */
  lemma DistinctObjectTypesKeepOrder(objectTypes: seq<ObjectTypeDefinition>, scalars: set<string>)
    requires GenerateConcreteEntities(objectTypes, scalars).Ok?
    requires Distinct(ObjectTypeNames(objectTypes))
    ensures var r := ConcreteEntityMap(objectTypes, scalars);
      r.Ok? && r.value.keys == ObjectTypeNames(objectTypes) &&
      forall i :: 0 <= i < |objectTypes| ==>
        objectTypes[i].name in r.value.values &&
        Ok(r.value.values[objectTypes[i].name]) == GenerateConcreteEntity(objectTypes[i], scalars)
  {
    var entities := GenerateConcreteEntities(objectTypes, scalars).value;
    var named := NamedConcrete(entities);
    DistinctConcreteMap(objectTypes, scalars);
    MapFromDistinctEntries(named);
    forall i | 0 <= i < |objectTypes|
      ensures GenerateConcreteEntity(objectTypes[i], scalars) == Ok(named[i].1) && named[i].0 == objectTypes[i].name
    {
      assert GenerateConcreteEntity(objectTypes[i], scalars) == Ok(entities[i]);
    }
  }

  lemma EntityNamesAreObjectTypeNames(objectTypes: seq<ObjectTypeDefinition>, scalars: set<string>)
    requires GenerateConcreteEntities(objectTypes, scalars).Ok?
    ensures var entities := GenerateConcreteEntities(objectTypes, scalars).value;
      Keys(NamedConcrete(entities)) == ObjectTypeNames(objectTypes) &&
      forall k :: 0 <= k < |entities| ==> entities[k].name == objectTypes[k].name
  {
    var entities := GenerateConcreteEntities(objectTypes, scalars).value;
    forall k | 0 <= k < |entities|
      ensures entities[k].name == objectTypes[k].name
    {
      assert GenerateConcreteEntity(objectTypes[k], scalars) == Ok(entities[k]);
    }
  }

  lemma CompositeNamesAreUnionTypeNames(unionTypes: seq<UnionTypeDefinition>, concrete: OrderedMap<ConcreteEntity>)
    requires GenerateCompositeEntities(unionTypes, concrete).Ok?
    ensures var entities := GenerateCompositeEntities(unionTypes, concrete).value;
      Keys(NamedComposite(entities)) == UnionTypeNames(unionTypes) &&
      forall k :: 0 <= k < |entities| ==> entities[k].name == unionTypes[k].name
  {
    var entities := GenerateCompositeEntities(unionTypes, concrete).value;
    forall k | 0 <= k < |entities|
      ensures entities[k].name == unionTypes[k].name
    {
      assert GenerateCompositeEntity(unionTypes[k], concrete) == Ok(entities[k]);
    }
  }

  /** The concrete map exists exactly when every object type builds and no two share a name. */
  lemma ConcreteEntityMapOk(objectTypes: seq<ObjectTypeDefinition>, scalars: set<string>)
    ensures ConcreteEntityMap(objectTypes, scalars).Ok? <==>
      GenerateConcreteEntities(objectTypes, scalars).Ok? && Distinct(ObjectTypeNames(objectTypes))
  {
    if GenerateConcreteEntities(objectTypes, scalars).Ok? {
      var names := ObjectTypeNames(objectTypes);
      if Distinct(names) {
        DistinctObjectTypesKeepOrder(objectTypes, scalars);
      } else {
        FirstRepeatExists(names);
        var j :| FirstRepeat(names, j);
        DuplicateObjectTypeFails(DefinitionNodes(objectTypes, []), scalars, j);
      }
    }
  }

  /** Once the concrete map exists, the first union that fails decides the error. */
  lemma UnionErrorStopsGeneration(definitions: DefinitionNodes, scalars: set<string>, i: int)
    requires ConcreteEntityMap(definitions.objectTypes, scalars).Ok?
    requires var concrete := ConcreteEntityMap(definitions.objectTypes, scalars).value;
      && 0 <= i < |definitions.unionTypes|
      && GenerateCompositeEntity(definitions.unionTypes[i], concrete).Err?
      && forall k :: 0 <= k < i ==> GenerateCompositeEntity(definitions.unionTypes[k], concrete).Ok?
    ensures var concrete := ConcreteEntityMap(definitions.objectTypes, scalars).value;
      GenerateModelSpec(definitions, scalars) == Err(GenerateCompositeEntity(definitions.unionTypes[i], concrete).error)
  {
    var concrete := ConcreteEntityMap(definitions.objectTypes, scalars).value;
    FirstCompositeError(definitions.unionTypes, concrete, i);
  }

  /** Building the composite entities fails with the error of the first union that fails. */
  lemma FirstCompositeError(unionTypes: seq<UnionTypeDefinition>, concrete: OrderedMap<ConcreteEntity>, i: int)
    requires 0 <= i < |unionTypes| && GenerateCompositeEntity(unionTypes[i], concrete).Err?
    requires forall k :: 0 <= k < i ==> GenerateCompositeEntity(unionTypes[k], concrete).Ok?
    ensures GenerateCompositeEntities(unionTypes, concrete) == Err(GenerateCompositeEntity(unionTypes[i], concrete).error)
  {
    var built := GenerateCompositeEntities(unionTypes, concrete);
    assert built.Err?;
    var j :| 0 <= j < |unionTypes| && GenerateCompositeEntity(unionTypes[j], concrete) == Err(built.error) &&
             forall k :: 0 <= k < j ==> GenerateCompositeEntity(unionTypes[k], concrete).Ok?;
    assert !(j < i) && !(i < j);
  }

  lemma ConcreteEntriesLookup(concrete: OrderedMap<ConcreteEntity>, n: string)
    requires concrete.Valid()
    ensures Keys(ConcreteEntries(concrete)) == concrete.keys
    ensures LastValue(ConcreteEntries(concrete), n) ==
      if n in concrete.values then Some(Concrete(concrete.values[n])) else None
  {
    var es := ConcreteEntries(concrete);
    assert Keys(es) == concrete.keys;
    if n in concrete.values {
      var p :| 0 <= p < |concrete.keys| && concrete.keys[p] == n;
      LastValueOfLast(es, p);
    }
  }

  lemma CompositeEntriesLookup(composite: OrderedMap<CompositeEntity>, n: string)
    requires composite.Valid()
    ensures Keys(CompositeEntries(composite)) == composite.keys
    ensures LastValue(CompositeEntries(composite), n) ==
      if n in composite.values then Some(Composite(composite.values[n])) else None
  {
    var es := CompositeEntries(composite);
    assert Keys(es) == composite.keys;
    if n in composite.values {
      var p :| 0 <= p < |composite.keys| && composite.keys[p] == n;
      LastValueOfLast(es, p);
    }
  }

  /** When the concrete map exists, its keys are the object type names in declared order. */
  lemma ConcreteKeys(objectTypes: seq<ObjectTypeDefinition>, scalars: set<string>)
    requires ConcreteEntityMap(objectTypes, scalars).Ok?
    ensures GenerateConcreteEntities(objectTypes, scalars).Ok?
    ensures Distinct(ObjectTypeNames(objectTypes))
    ensures ConcreteEntityMap(objectTypes, scalars).value.keys == ObjectTypeNames(objectTypes)
  {
    ConcreteEntityMapOk(objectTypes, scalars);
    DistinctObjectTypesKeepOrder(objectTypes, scalars);
  }

  /** The composite map's keys are the union names, each once, in order of first occurrence. */
  lemma CompositeKeys(unionTypes: seq<UnionTypeDefinition>, concrete: OrderedMap<ConcreteEntity>)
    requires GenerateCompositeEntities(unionTypes, concrete).Ok?
    ensures var composite := CompositeEntityMap(unionTypes, concrete);
      composite.Ok? && composite.value.Valid() &&
      composite.value.keys == FirstOccurrences(UnionTypeNames(unionTypes), {})
  {
    var named := NamedComposite(GenerateCompositeEntities(unionTypes, concrete).value);
    CompositeNamesAreUnionTypeNames(unionTypes, concrete);
    InsertAllKeys(Empty(), named);
    assert Empty<CompositeEntity>().values.Keys == {};
  }

  /** Merging a map with distinct keys `a` and then keys `b` gives `a` followed by the new keys of `b`. */
  lemma MergedKeys(a: seq<string>, b: seq<string>, union: seq<string>)
    requires Distinct(a) && b == FirstOccurrences(union, {})
    ensures FirstOccurrences(a + b, {}) == a + FirstOccurrences(union, set n | n in a)
  {
    FirstOccurrencesAppend(a, b, {});
    FirstOccurrencesOfDistinct(a, {});
    FirstOccurrencesTwice(union, {}, set n | n in a);
    assert {} + (set x | x in a) == set n | n in a;
  }

  /** The model map's keys are the concrete keys followed by the new composite keys. */
  lemma EntriesKeys(concrete: OrderedMap<ConcreteEntity>, composite: OrderedMap<CompositeEntity>)
    requires concrete.Valid() && composite.Valid()
    ensures var m := MapFromEntries(ConcreteEntries(concrete) + CompositeEntries(composite));
      m.Valid() && m.keys == FirstOccurrences(concrete.keys + composite.keys, {})
  {
    var ce, pe := ConcreteEntries(concrete), CompositeEntries(composite);
    assert Keys(ce) == concrete.keys;
    assert Keys(pe) == composite.keys;
    KeysAppend(ce, pe);
    InsertAllKeys(Empty(), ce + pe);
    assert Empty<Entity>().values.Keys == {};
  }

  /** A model that is built is the merge of its concrete and composite maps. */
  lemma ModelEntities(definitions: DefinitionNodes, scalars: set<string>)
    requires GenerateModelSpec(definitions, scalars).Ok?
    ensures var concrete := ConcreteEntityMap(definitions.objectTypes, scalars);
      concrete.Ok? && GenerateCompositeEntities(definitions.unionTypes, concrete.value).Ok? &&
      var composite := CompositeEntityMap(definitions.unionTypes, concrete.value).value;
      GenerateModelSpec(definitions, scalars).value.entities ==
        MapFromEntries(ConcreteEntries(concrete.value) + CompositeEntries(composite))
  {
  }

  /**
   * The model's keys are the object type names in declared order, then each
   * union name that is not an object type name, once, in order of first
   * occurrence.
   */
  lemma ModelKeyOrder(definitions: DefinitionNodes, scalars: set<string>)
    requires GenerateModelSpec(definitions, scalars).Ok?
    ensures var entities := GenerateModelSpec(definitions, scalars).value.entities;
      var objectNames := ObjectTypeNames(definitions.objectTypes);
      entities.Valid() &&
      entities.keys == objectNames + FirstOccurrences(UnionTypeNames(definitions.unionTypes), set n | n in objectNames)
  {
    var objectTypes, unionTypes := definitions.objectTypes, definitions.unionTypes;
    ModelEntities(definitions, scalars);
    var concrete := ConcreteEntityMap(objectTypes, scalars).value;
    ConcreteKeys(objectTypes, scalars);
    CompositeKeys(unionTypes, concrete);
    var composite := CompositeEntityMap(unionTypes, concrete).value;
    EntriesKeys(concrete, composite);
    MergedKeys(concrete.keys, composite.keys, UnionTypeNames(unionTypes));
  }

  /** In the merged map a composite overwrites a concrete entity of the same name. */
  lemma MergedEntriesLookup(concrete: OrderedMap<ConcreteEntity>, composite: OrderedMap<CompositeEntity>, n: string)
    requires concrete.Valid() && composite.Valid()
    ensures var m := MapFromEntries(ConcreteEntries(concrete) + CompositeEntries(composite));
      (n in composite.values ==> n in m.values && m.values[n] == Composite(composite.values[n])) &&
      (n !in composite.values && n in concrete.values ==> n in m.values && m.values[n] == Concrete(concrete.values[n]))
  {
    var ce, pe := ConcreteEntries(concrete), CompositeEntries(composite);
    CompositeEntriesLookup(composite, n);
    ConcreteEntriesLookup(concrete, n);
    LastValueAppend(ce, pe, n);
    InsertAllLookup(Empty(), ce + pe, n);
  }

  /**
   * A union name maps to the composite built from the LAST union of that
   * name, overwriting an object type or an earlier union of the same name.
   */
  lemma ModelCompositeLookup(definitions: DefinitionNodes, scalars: set<string>, i: int)
    requires GenerateModelSpec(definitions, scalars).Ok?
    requires 0 <= i < |definitions.unionTypes|
    requires forall j :: i < j < |definitions.unionTypes| ==> definitions.unionTypes[j].name != definitions.unionTypes[i].name
    ensures var entities := GenerateModelSpec(definitions, scalars).value.entities;
      var concrete := ConcreteEntityMap(definitions.objectTypes, scalars).value;
      var n := definitions.unionTypes[i].name;
      n in entities.values && entities.values[n].Composite? &&
      GenerateCompositeEntity(definitions.unionTypes[i], concrete) == Ok(entities.values[n].composite)
  {
    ModelEntities(definitions, scalars);
    var unionTypes := definitions.unionTypes;
    var n := unionTypes[i].name;
    var concrete := ConcreteEntityMap(definitions.objectTypes, scalars).value;
    var composites := GenerateCompositeEntities(unionTypes, concrete).value;
    var named := NamedComposite(composites);
    assert GenerateCompositeEntity(unionTypes[i], concrete) == Ok(composites[i]);
    CompositeNamesAreUnionTypeNames(unionTypes, concrete);
    assert named[i] == (n, composites[i]);
    MapFromEntriesLast(named, i);
    MergedEntriesLookup(concrete, MapFromEntries(named), n);
  }

  /** An object type name that no union shares maps to the concrete entity built from it. */
  lemma ModelConcreteLookup(definitions: DefinitionNodes, scalars: set<string>, i: int)
    requires GenerateModelSpec(definitions, scalars).Ok?
    requires 0 <= i < |definitions.objectTypes|
    requires forall j :: 0 <= j < |definitions.unionTypes| ==> definitions.unionTypes[j].name != definitions.objectTypes[i].name
    ensures var entities := GenerateModelSpec(definitions, scalars).value.entities;
      var n := definitions.objectTypes[i].name;
      n in entities.values && entities.values[n].Concrete? &&
      GenerateConcreteEntity(definitions.objectTypes[i], scalars) == Ok(entities.values[n].concrete)
  {
    ModelEntities(definitions, scalars);
    var objectTypes, unionTypes := definitions.objectTypes, definitions.unionTypes;
    var n := objectTypes[i].name;
    ConcreteEntityMapOk(objectTypes, scalars);
    DistinctObjectTypesKeepOrder(objectTypes, scalars);
    var concrete := ConcreteEntityMap(objectTypes, scalars).value;
    var named := NamedComposite(GenerateCompositeEntities(unionTypes, concrete).value);
    CompositeNamesAreUnionTypeNames(unionTypes, concrete);
    InsertAllLookup(Empty(), named, n);
    MergedEntriesLookup(concrete, MapFromEntries(named), n);
  }

  /** A schema without unions whose object types build and have distinct names gives one concrete entity per type, in order. */
  lemma ObjectTypesOnlyModel(objectTypes: seq<ObjectTypeDefinition>, scalars: set<string>)
    requires GenerateConcreteEntities(objectTypes, scalars).Ok?
    requires Distinct(ObjectTypeNames(objectTypes))
    ensures var r := GenerateModelSpec(DefinitionNodes(objectTypes, []), scalars);
      r.Ok? && r.value.entities.keys == ObjectTypeNames(objectTypes) &&
      forall i :: 0 <= i < |objectTypes| ==>
        objectTypes[i].name in r.value.entities.values &&
        r.value.entities.values[objectTypes[i].name] == Concrete(GenerateConcreteEntity(objectTypes[i], scalars).value)
  {
    var definitions := DefinitionNodes(objectTypes, []);
    DistinctObjectTypesKeepOrder(objectTypes, scalars);
    var concrete := ConcreteEntityMap(objectTypes, scalars).value;
    assert GenerateCompositeEntities([], concrete).Ok?;
    ModelKeyOrder(definitions, scalars);
    assert UnionTypeNames([]) == [];
    forall i | 0 <= i < |objectTypes|
      ensures var entities := GenerateModelSpec(definitions, scalars).value.entities;
        objectTypes[i].name in entities.values &&
        entities.values[objectTypes[i].name] == Concrete(GenerateConcreteEntity(objectTypes[i], scalars).value)
    {
      ModelConcreteLookup(definitions, scalars, i);
    }
  }

  /** The concrete map of a single object type that builds. */
  lemma SingleObjectTypeConcrete(objectType: ObjectTypeDefinition, scalars: set<string>)
    requires GenerateConcreteEntity(objectType, scalars).Ok?
    ensures var concrete := ConcreteEntityMap([objectType], scalars);
      concrete.Ok? && concrete.value.keys == [objectType.name] && objectType.name in concrete.value.values &&
      Ok(concrete.value.values[objectType.name]) == GenerateConcreteEntity(objectType, scalars)
  {
    assert GenerateConcreteEntities([objectType], scalars).Ok?;
    assert ObjectTypeNames([objectType]) == [objectType.name];
    DistinctObjectTypesKeepOrder([objectType], scalars);
  }

  /** The union named like the object type it contains resolves to that type's entity, and the model is built. */
  lemma SameNameUnionBuilds(objectType: ObjectTypeDefinition, scalars: set<string>)
    requires GenerateConcreteEntity(objectType, scalars).Ok?
    ensures var n := objectType.name; var union := UnionTypeDefinition(n, Some([n]));
      GenerateModelSpec(DefinitionNodes([objectType], [union]), scalars).Ok? &&
      GenerateCompositeEntity(union, ConcreteEntityMap([objectType], scalars).value) ==
        Ok(CompositeEntity(n, [GenerateConcreteEntity(objectType, scalars).value]))
  {
    var n := objectType.name;
    var union := UnionTypeDefinition(n, Some([n]));
    SingleObjectTypeConcrete(objectType, scalars);
    var concrete := ConcreteEntityMap([objectType], scalars).value;
    assert Members(union) == [n];
    assert GenerateCompositeEntity(union, concrete).value.concreteEntities == [GenerateConcreteEntity(objectType, scalars).value];
    assert GenerateCompositeEntities([union], concrete).Ok?;
  }

  /** The model of one object type and one union of the same name has that one name as its key. */
  lemma SameNameUnionKeys(definitions: DefinitionNodes, scalars: set<string>, n: string)
    requires GenerateModelSpec(definitions, scalars).Ok?
    requires ObjectTypeNames(definitions.objectTypes) == [n] && UnionTypeNames(definitions.unionTypes) == [n]
    ensures GenerateModelSpec(definitions, scalars).value.entities.keys == [n]
  {
    var names := [n];
    ModelKeyOrder(definitions, scalars);
    assert names[0] in (set x | x in names) && names[1..] == [];
    assert FirstOccurrences(names, set x | x in names) == [];
  }

  /**
   * A union named like the object type it contains replaces that object
   * type's concrete entity: no duplicate is reported.
   */
  lemma SameNameUnionReplacesObjectType(objectType: ObjectTypeDefinition, scalars: set<string>)
    requires GenerateConcreteEntity(objectType, scalars).Ok?
    ensures var n := objectType.name;
      var r := GenerateModelSpec(DefinitionNodes([objectType], [UnionTypeDefinition(n, Some([n]))]), scalars);
      r.Ok? && r.value.entities.keys == [n] && n in r.value.entities.values &&
      r.value.entities.values[n] == Composite(CompositeEntity(n, [GenerateConcreteEntity(objectType, scalars).value]))
  {
    var n := objectType.name;
    var union := UnionTypeDefinition(n, Some([n]));
    var definitions := DefinitionNodes([objectType], [union]);
    SameNameUnionBuilds(objectType, scalars);
    ModelCompositeLookup(definitions, scalars, 0);
    assert ObjectTypeNames([objectType]) == [n] && UnionTypeNames([union]) == [n];
    SameNameUnionKeys(definitions, scalars, n);
  }

  /**
   * Every member of a union is the concrete entity built from the object
   * type of that name, so members always refer to object types.
   */
  lemma CompositeMembersAreObjectTypes(definitions: DefinitionNodes, scalars: set<string>, i: int, k: int)
    requires GenerateModelSpec(definitions, scalars).Ok?
    requires 0 <= i < |definitions.unionTypes| && 0 <= k < |Members(definitions.unionTypes[i])|
    ensures var concrete := ConcreteEntityMap(definitions.objectTypes, scalars).value;
      var composite := GenerateCompositeEntity(definitions.unionTypes[i], concrete);
      composite.Ok? && k < |composite.value.concreteEntities| &&
      exists o :: 0 <= o < |definitions.objectTypes| &&
        definitions.objectTypes[o].name == Members(definitions.unionTypes[i])[k] &&
        GenerateConcreteEntity(definitions.objectTypes[o], scalars) == Ok(composite.value.concreteEntities[k])
  {
    var objectTypes, unionTypes := definitions.objectTypes, definitions.unionTypes;
    ConcreteEntityMapOk(objectTypes, scalars);
    DistinctObjectTypesKeepOrder(objectTypes, scalars);
    var concrete := ConcreteEntityMap(objectTypes, scalars).value;
    var composites := GenerateCompositeEntities(unionTypes, concrete).value;
    assert GenerateCompositeEntity(unionTypes[i], concrete) == Ok(composites[i]);
    var member := Members(unionTypes[i])[k];
    assert member in concrete.keys;
    var o :| 0 <= o < |concrete.keys| && concrete.keys[o] == member;
    assert ObjectTypeNames(objectTypes)[o] == objectTypes[o].name;
  }
}
