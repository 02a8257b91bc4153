# Schema model generation and union result collection, in Dafny

This project models two parts of the Neo4j GraphQL library.

**The schema model generator** (`generateModel`) takes the object-type and union-type definitions of
a GraphQL type definition document and builds a Schema Model: a map from names to entities.
- Every object type becomes a *concrete entity*. It keeps only its fields of scalar type, as
  attributes, in declared order.
- On those fields, only `@cypher` directives become annotations. Their `statement` argument must be
  a non-empty string.
- Every union becomes a *composite entity*. Its member names are resolved against the concrete
  entities already built.
- Generation fails fast on four errors: a duplicate object type name, an unresolved union member, a
  union with no members, and a `@cypher` directive without a statement.

**The union result collection** (`collectUnionSubqueriesResults`) builds the clauses that close a
union subquery.
- A `WITH v` clause is handed to the sort and pagination step.
- A `RETURN` then projects `collect(v)` for a list field, or `head(collect(v))` for a single
  field, under the alias `v`.
- The two clauses are concatenated.

Modules:
- `Wrappers` holds `Option` and `Result`.
- `Utils` holds `MapResult`, an `array.map` whose callback may throw, and `FilterSome`, which is `filterTruthy`.
- `OrderedMaps` holds the JavaScript `Map`. Its value is `OrderedMap`, keys in insertion order plus a
  key-value map. The class `InsertionMap` is that map mutated in place.
- `SchemaAst` holds the input definitions. `Entities` holds the Schema Model.
- `GenerateModel` holds the generator.
- `ModelProperties` proves properties of the whole generator.
- `SchemaExamples` states what the generator gives for small schemas.
- `CypherIR` holds the fragment of the Cypher clause tree that is built. Beside it are shapes
  (single value or list), the variables in scope, and the value of `collect`/`head` over a
  variable's rows.
- `CollectUnionSubqueries` holds the union result collection.

The generator's two reduces into a `Map` are loops over an `InsertionMap`, the `Map` mutated in place:
- `GenerateModel.ReduceConcreteEntities`, proved equal to the function `AddConcreteEntities`;
- `GenerateModel.ReduceCompositeEntities`, proved equal to `MapFromEntries` of the named composites.

The reduce of `parseArguments` accumulates into a plain object, not a `Map`. It is a loop over a
local `map` value in `GenerateModel.ParseArguments`, proved equal to the function `ParsedArguments`.
The properties are proved about those functions.

Where the code and the library's documented intent differ, the model follows the code:
- A union with the same name as an object type is not refused. The composite entity overwrites the
  concrete one in the final map (`ModelProperties.SameNameUnionReplacesObjectType`).
- Two unions with the same name are not refused either. The last one wins.
- All object types are built before names are compared. So a `@cypher` error in any object type is
  reported in preference to a duplicate name (`ModelProperties.ConcreteErrorsComeFirst`).
- The directives of fields of non-scalar type are never inspected.

## Model

| member | source | states |
|---|---|---|
| Utils.MapResult | packages/graphql/src/schema-model/generate-model.ts:85 | `map` with a throwing callback succeeds iff the callback succeeds on every element; then the results are elementwise; otherwise the error is that of the first failing element |
| Utils.FilterSome | packages/graphql/src/schema-model/generate-model.ts:89 | `filterTruthy` is no longer than its input and keeps only values present in it |
| Utils.FilterSomeCons | packages/graphql/src/schema-model/generate-model.ts:105-114 | filtering keeps a present head value in front and drops an absent one |
| OrderedMaps.FirstOccurrencesMembers | packages/graphql/src/schema-model/generate-model.ts:59 | the key order a `Map` builds lists exactly the names not already present, each once |
| OrderedMaps.KeysAppend | packages/graphql/src/schema-model/generate-model.ts:59 | the keys of `[...a, ...b]` are the keys of `a` followed by those of `b` |
| OrderedMaps.LastValue | packages/graphql/src/schema-model/generate-model.ts:59 | a key's value is absent iff no entry has the key, and otherwise comes from the last entry with it |
| OrderedMaps.MapFromEntries | packages/graphql/src/schema-model/generate-model.ts:59 | `new Map(entries)`; its key order is in InsertAllKeys and its lookups in InsertAllLookup, MapFromEntriesLast and MapFromDistinctEntries |
| OrderedMaps.OrderedMap.Insert | packages/graphql/src/schema-model/generate-model.ts:46 | `map.set(k, v)` keeps the map well formed and maps `k` to `v` |
| OrderedMaps.OrderedMap.InsertAll | packages/graphql/src/schema-model/generate-model.ts:59 | inserting entries keeps the map well formed |
| OrderedMaps.Empty | packages/graphql/src/schema-model/generate-model.ts:48 | `new Map()` is well formed and has no keys |
| OrderedMaps.InsertAllKeys | packages/graphql/src/schema-model/generate-model.ts:59 | after inserting, the old keys come first, then each new key once, at its first insertion |
| OrderedMaps.InsertAllLookup | packages/graphql/src/schema-model/generate-model.ts:55 | after inserting, a key maps to the last value inserted for it, or keeps its old value |
| OrderedMaps.LastValueAppend | packages/graphql/src/schema-model/generate-model.ts:59 | in `[...a, ...b]` an entry of `b` overrides one of `a` |
| OrderedMaps.LastValueOfLast | packages/graphql/src/schema-model/generate-model.ts:55 | an entry that no later entry shares its key with gives that key's value |
| OrderedMaps.MapFromEntriesLast | packages/graphql/src/schema-model/generate-model.ts:59 | in `new Map(entries)`, the key of an entry no later one shares maps to that entry's value |
| OrderedMaps.DistinctKeysEntry | packages/graphql/src/schema-model/generate-model.ts:59 | with distinct keys, no later entry shares an entry's key |
| OrderedMaps.MapFromDistinctEntries | packages/graphql/src/schema-model/generate-model.ts:59 | `new Map(entries)` with distinct keys keeps their order and holds every entry |
| OrderedMaps.FirstOccurrencesAppend | packages/graphql/src/schema-model/generate-model.ts:59 | the new keys of `a + b` are those of `a`, then those of `b` not in `a` |
| OrderedMaps.FirstOccurrencesOfDistinct | packages/graphql/src/schema-model/generate-model.ts:59 | distinct new keys all appear, in their own order |
| OrderedMaps.FirstOccurrencesTwice | packages/graphql/src/schema-model/generate-model.ts:59 | taking first occurrences twice is taking them once against both sets of present keys |
| OrderedMaps.FirstOccurrencesSeen | packages/graphql/src/schema-model/generate-model.ts:59 | present keys that do not occur make no difference |
| OrderedMaps.InsertionMap.constructor | packages/graphql/src/schema-model/generate-model.ts:48 | `new Map()` holds the empty map |
| OrderedMaps.InsertionMap.FromEntries | packages/graphql/src/schema-model/generate-model.ts:59 | `new Map(entries)` holds the entries inserted in order |
| OrderedMaps.InsertionMap.Has | packages/graphql/src/schema-model/generate-model.ts:43 | `map.has(k)` holds iff `k` is a key of the map's value |
| OrderedMaps.InsertionMap.Set | packages/graphql/src/schema-model/generate-model.ts:46 | `map.set(k, v)` changes the map to its insertion of `(k, v)` and nothing else |
| GenerateModel.AddStringArguments | packages/graphql/src/schema-model/generate-model.ts:128-134 | the reduce of `parseArguments` into an accumulator; AddStringArgumentsLookup states what it records per name |
| GenerateModel.ParsedArguments | packages/graphql/src/schema-model/generate-model.ts:127-135 | the record `parseArguments` returns; ParseArguments ties it to LastStringArgument name by name |
| GenerateModel.LastStringArgument | packages/graphql/src/schema-model/generate-model.ts:127-134 | the value recorded for a name is absent iff no string-valued argument has that name, and otherwise is the last such argument's value |
| GenerateModel.AddStringArgumentsLookup | packages/graphql/src/schema-model/generate-model.ts:128-133 | the reduce records the last string-valued argument of each name and keeps earlier records of names it does not meet |
| GenerateModel.ParseArguments | packages/graphql/src/schema-model/generate-model.ts:127-135 | `parseArguments` holds a name iff a string-valued argument has it, with the last such value; arguments of other kinds are skipped |
| GenerateModel.ParseCypherAnnotation | packages/graphql/src/schema-model/generate-model.ts:117-125 | succeeds iff the parsed `statement` is present and non-empty, and then carries it; otherwise fails with "@cypher statement required" |
| GenerateModel.DirectiveAnnotation | packages/graphql/src/schema-model/generate-model.ts:107-112 | the `switch` on the directive name; CreateFieldAnnotationsCons and FieldAnnotationsFail state that only `cypher` is parsed and others give nothing |
| GenerateModel.CreateFieldAnnotations | packages/graphql/src/schema-model/generate-model.ts:104-115 | the only error is "@cypher statement required" |
| GenerateModel.CypherDirectives | packages/graphql/src/schema-model/generate-model.ts:107-111 | only directives named `cypher` are kept |
| GenerateModel.CreateFieldAnnotationsCons | packages/graphql/src/schema-model/generate-model.ts:104-115 | directives are handled in order; an error in the first aborts; a non-`cypher` directive adds nothing |
| GenerateModel.FieldAnnotationsFail | packages/graphql/src/schema-model/generate-model.ts:104-115 | annotations are created iff every `@cypher` directive has a non-empty string statement; other directives are never inspected |
| GenerateModel.FieldAnnotationsFromCypherDirectives | packages/graphql/src/schema-model/generate-model.ts:104-115 | each `@cypher` directive gives exactly one annotation, in directive order, carrying its statement; other directives give none |
| GenerateModel.GenerateField | packages/graphql/src/schema-model/generate-model.ts:93-102 | `generateField` fails only with the `@cypher` error |
| GenerateModel.GenerateAttributes | packages/graphql/src/schema-model/generate-model.ts:85-89 | mapping and filtering fields fails only with the `@cypher` error |
| GenerateModel.GenerateConcreteEntity | packages/graphql/src/schema-model/generate-model.ts:84-91 | the entity has the object type's name; its only error is the `@cypher` error |
| GenerateModel.ScalarFields | packages/graphql/src/schema-model/generate-model.ts:95 | the fields kept all have a scalar type |
| GenerateModel.GenerateAttributesCons | packages/graphql/src/schema-model/generate-model.ts:85-101 | fields are handled in order; a scalar field's annotation error aborts; a non-scalar field adds nothing |
| GenerateModel.AttributesFail | packages/graphql/src/schema-model/generate-model.ts:85-96 | attributes are built iff every field of scalar type has annotations that succeed |
| GenerateModel.AttributesFromScalarFields | packages/graphql/src/schema-model/generate-model.ts:84-102 | the attributes are exactly the fields of scalar type, in declared order, each with its name and annotations |
| GenerateModel.AttributesOfScalarFields | packages/graphql/src/schema-model/generate-model.ts:93-102 | building attributes from all fields equals building them from the scalar fields alone |
| GenerateModel.ScalarFieldsMember | packages/graphql/src/schema-model/generate-model.ts:95 | every field of scalar type is selected |
| GenerateModel.ConcreteEntityFromScalarFields | packages/graphql/src/schema-model/generate-model.ts:84-102 | a concrete entity is built iff every scalar field's annotations succeed; it has the type's name and one attribute per scalar field, in declared order |
| GenerateModel.NonScalarFieldsDropped | packages/graphql/src/schema-model/generate-model.ts:93-102 | removing the fields of non-scalar type does not change the result, errors included |
| GenerateModel.ResolveMember | packages/graphql/src/schema-model/generate-model.ts:68-72 | `concreteEntities.get` with its throw; GenerateCompositeEntity and UnresolvedMemberFails state its result |
| GenerateModel.GenerateCompositeEntity | packages/graphql/src/schema-model/generate-model.ts:63-82 | succeeds iff the union has members and every member name has a concrete entity; the members are those entities in the union's order with repeats kept; errors name the union or a member |
| GenerateModel.UnresolvedMemberFails | packages/graphql/src/schema-model/generate-model.ts:67-71 | the first member name with no concrete entity is reported |
| GenerateModel.EmptyUnionFails | packages/graphql/src/schema-model/generate-model.ts:67-77 | an absent or empty member list fails, naming the union |
| GenerateModel.GenerateConcreteEntities | packages/graphql/src/schema-model/generate-model.ts:42 | on success, one concrete entity per object type, each built from it |
| GenerateModel.AddConcreteEntities | packages/graphql/src/schema-model/generate-model.ts:42-48 | the concrete reduce fails only with a duplicate error and keeps the map well formed |
| GenerateModel.ConcreteEntityMap | packages/graphql/src/schema-model/generate-model.ts:42-48 | the concrete map is well formed |
| GenerateModel.GenerateCompositeEntities | packages/graphql/src/schema-model/generate-model.ts:50-53 | on success, one composite entity per union, each built from it |
| GenerateModel.CompositeEntityMap | packages/graphql/src/schema-model/generate-model.ts:50-57 | the composite map is well formed |
| GenerateModel.ConcreteEntries | packages/graphql/src/schema-model/generate-model.ts:59 | the spread `...concreteEntities`; ConcreteEntriesLookup states its keys and values |
| GenerateModel.CompositeEntries | packages/graphql/src/schema-model/generate-model.ts:59 | the spread `...compositeEntities`; CompositeEntriesLookup states its keys and values |
| GenerateModel.GenerateModelSpec | packages/graphql/src/schema-model/generate-model.ts:40-61 | `generateModel` as a value; GenerateModel computes it, and the ModelProperties lemmas state its errors, key order and lookups |
| GenerateModel.ReduceConcreteEntities | packages/graphql/src/schema-model/generate-model.ts:42-48 | the in-place reduce computes the concrete map, failing at the first repeated name |
| GenerateModel.ReduceCompositeEntities | packages/graphql/src/schema-model/generate-model.ts:54-57 | the in-place reduce computes the map of the composite entries, later ones overwriting |
| GenerateModel.GenerateModel | packages/graphql/src/schema-model/generate-model.ts:40-61 | `generateModel` computes the model of the definitions: both reduces, then the concrete entries followed by the composite ones |
| ModelProperties.FirstRepeatExists | packages/graphql/src/schema-model/generate-model.ts:43-45 | names that are not distinct have a first repeated index |
| ModelProperties.AddConcreteEntitiesFirstDuplicate | packages/graphql/src/schema-model/generate-model.ts:42-48 | the first entity whose name is already present is reported as duplicate |
| ModelProperties.AddConcreteEntitiesDistinct | packages/graphql/src/schema-model/generate-model.ts:42-48 | entities with distinct new names are all inserted |
| ModelProperties.ConcreteErrorsComeFirst | packages/graphql/src/schema-model/generate-model.ts:42 | the first object type that fails to build decides the error, before any duplicate name or union |
| ModelProperties.DuplicateObjectTypeFails | packages/graphql/src/schema-model/generate-model.ts:42-48 | when all object types build, the first repeated name is reported and no model is produced |
| ModelProperties.SharedNameFails | packages/graphql/src/schema-model/generate-model.ts:42-48 | two object types with one name make generation fail with a duplicate error naming a repeated name |
| ModelProperties.DistinctConcreteMap | packages/graphql/src/schema-model/generate-model.ts:42-48 | with distinct names, the concrete reduce inserts every entity under its name, in declared order |
| ModelProperties.DistinctObjectTypesKeepOrder | packages/graphql/src/schema-model/generate-model.ts:42-48 | with distinct names, the concrete map holds the names in declared order, each mapped to its entity |
| ModelProperties.EntityNamesAreObjectTypeNames | packages/graphql/src/schema-model/generate-model.ts:42-88 | each concrete entity is named after its object type |
| ModelProperties.CompositeNamesAreUnionTypeNames | packages/graphql/src/schema-model/generate-model.ts:50-79 | each composite entity is named after its union |
| ModelProperties.ConcreteEntityMapOk | packages/graphql/src/schema-model/generate-model.ts:42-48 | the concrete map exists iff every object type builds and their names are distinct |
| ModelProperties.UnionErrorStopsGeneration | packages/graphql/src/schema-model/generate-model.ts:50-53 | once the concrete map exists, the first union that fails decides the error |
| ModelProperties.FirstCompositeError | packages/graphql/src/schema-model/generate-model.ts:50-77 | mapping the unions fails with the error of the first union that fails |
| ModelProperties.ConcreteEntriesLookup | packages/graphql/src/schema-model/generate-model.ts:59 | spreading the concrete map gives its keys and values |
| ModelProperties.CompositeEntriesLookup | packages/graphql/src/schema-model/generate-model.ts:59 | spreading the composite map gives its keys and values |
| ModelProperties.ConcreteKeys | packages/graphql/src/schema-model/generate-model.ts:42-48 | the concrete map's keys are the object type names in declared order |
| ModelProperties.CompositeKeys | packages/graphql/src/schema-model/generate-model.ts:50-57 | the composite map's keys are the union names, once each, in order of first occurrence |
| ModelProperties.MergedKeys | packages/graphql/src/schema-model/generate-model.ts:59 | merging distinct keys with first occurrences of others keeps the first and adds the others not among them |
| ModelProperties.EntriesKeys | packages/graphql/src/schema-model/generate-model.ts:59 | the model map's keys are the concrete keys, then the new composite keys |
| ModelProperties.ModelEntities | packages/graphql/src/schema-model/generate-model.ts:40-61 | a model that is produced is the merge of the concrete and the composite map |
| ModelProperties.ModelKeyOrder | packages/graphql/src/schema-model/generate-model.ts:42-59 | the model's keys are the object type names in declared order, then each union name that is not an object type name, once, by first occurrence |
| ModelProperties.MergedEntriesLookup | packages/graphql/src/schema-model/generate-model.ts:59 | in the merged map a composite overwrites a concrete entity of the same name |
| ModelProperties.ModelCompositeLookup | packages/graphql/src/schema-model/generate-model.ts:50-59 | a union name maps to the composite of the last union of that name, overwriting any object type of that name |
| ModelProperties.ModelConcreteLookup | packages/graphql/src/schema-model/generate-model.ts:42-59 | an object type name no union shares maps to the concrete entity built from it |
| ModelProperties.ObjectTypesOnlyModel | packages/graphql/src/schema-model/generate-model.ts:40-61 | without unions, distinct object types that build give one concrete entity per type, in declared order |
| ModelProperties.SingleObjectTypeConcrete | packages/graphql/src/schema-model/generate-model.ts:42-48 | one object type that builds gives a concrete map of one entry |
| ModelProperties.SameNameUnionBuilds | packages/graphql/src/schema-model/generate-model.ts:50-81 | a union named like the one object type it contains resolves to that type's entity and the model is produced |
| ModelProperties.SameNameUnionKeys | packages/graphql/src/schema-model/generate-model.ts:54-59 | one object type and one union of the same name give a model with that single key |
| ModelProperties.SameNameUnionReplacesObjectType | packages/graphql/src/schema-model/generate-model.ts:54-59 | a union named like the object type it contains is not refused and replaces that concrete entity |
| ModelProperties.CompositeMembersAreObjectTypes | packages/graphql/src/schema-model/generate-model.ts:67-73 | every member of a composite entity is the concrete entity of the object type of that name |
| SchemaExamples.MovieAndActorEntities | packages/graphql/src/schema-model/generate-model.ts:84-102 | a `Movie` with a scalar and a relationship field keeps only the scalar field; `Actor` keeps its one field |
| SchemaExamples.OneScalarField | packages/graphql/src/schema-model/generate-model.ts:84-102 | an object type with one scalar field gives one attribute |
| SchemaExamples.MovieAndActorConcrete | packages/graphql/src/schema-model/generate-model.ts:42-48 | two distinct object types give the concrete map `Movie`, `Actor` |
| SchemaExamples.MovieAndActor | packages/graphql/src/schema-model/generate-model.ts:40-61 | the model of `Movie` and `Actor` has those two concrete entities in order |
| SchemaExamples.MissingUnionMember | packages/graphql/src/schema-model/generate-model.ts:67-71 | a union member `Director` with no object type is reported |
| SchemaExamples.EmptyUnion | packages/graphql/src/schema-model/generate-model.ts:75-77 | a union without members is reported by name |
| SchemaExamples.CypherWithoutStatement | packages/graphql/src/schema-model/generate-model.ts:117-129 | a missing, non-string or empty `statement` is refused |
| SchemaExamples.CypherStatementKept | packages/graphql/src/schema-model/generate-model.ts:117-134 | the last string `statement` becomes the annotation; a later non-string one is ignored |
| SchemaExamples.DuplicateMovie | packages/graphql/src/schema-model/generate-model.ts:43-45 | `Movie` twice is a duplicate error naming `Movie` |
| SchemaExamples.CypherErrorBeatsDuplicate | packages/graphql/src/schema-model/generate-model.ts:42 | a `@cypher` error in a later object type is reported instead of an earlier duplicate |
| CypherIR.NonNull | packages/graphql/src/translate/projection/subquery/collect-union-subqueries-results.ts:35 | what `collect` keeps has no nulls and is no longer than the rows |
| CollectUnionSubqueries.CreateWithSortAndPaginationClauses | packages/graphql/src/translate/projection/subquery/collect-union-subqueries-results.ts:45-57 | the `WITH v` handed to the sort step with `v` as target; WithIndependentOfIsArray states it |
| CollectUnionSubqueries.ReturnProjection | packages/graphql/src/translate/projection/subquery/collect-union-subqueries-results.ts:35-38 | the projection; ArrayCollects, SingleTakesHead and ProjectionShape state it for each `isArray` |
| CollectUnionSubqueries.CollectUnionSubqueriesResults | packages/graphql/src/translate/projection/subquery/collect-union-subqueries-results.ts:24-43 | the result concatenates exactly two clauses: the sorted `WITH`, then `RETURN` of the pair projection and result variable |
| CollectUnionSubqueries.ArrayCollects | packages/graphql/src/translate/projection/subquery/collect-union-subqueries-results.ts:35-40 | for a list field the projection is `collect(v)` |
| CollectUnionSubqueries.SingleTakesHead | packages/graphql/src/translate/projection/subquery/collect-union-subqueries-results.ts:36-40 | for a single field the projection is `head(collect(v))` |
| CollectUnionSubqueries.ReturnBindsResultVariable | packages/graphql/src/translate/projection/subquery/collect-union-subqueries-results.ts:40 | the `RETURN` is the one pair of the projection and `v`: it reads only `v` and binds only `v` |
| CollectUnionSubqueries.WithIndependentOfIsArray | packages/graphql/src/translate/projection/subquery/collect-union-subqueries-results.ts:33-57 | the `WITH` projects `v`, is handed to the sort step with `v` as target, and does not depend on `isArray` |
| CollectUnionSubqueries.ArrayAndSingleDifferInProjectionOnly | packages/graphql/src/translate/projection/subquery/collect-union-subqueries-results.ts:35-40 | the single-field result is the list-field result with `head` around the projection |
| CollectUnionSubqueries.ProjectionShape | packages/graphql/src/translate/projection/subquery/collect-union-subqueries-results.ts:35-38 | the projection aggregates, and is a list exactly for a list field |
| CollectUnionSubqueries.ClausesWellScoped | packages/graphql/src/translate/projection/subquery/collect-union-subqueries-results.ts:33-42 | when the sort step keeps the projection, the clauses are well scoped when `v` is in scope and leave exactly `v` |
| CollectUnionSubqueries.ClausesNeedResultVariable | packages/graphql/src/translate/projection/subquery/collect-union-subqueries-results.ts:33-49 | when the sort step keeps the projection `[v]`, the clauses are refused in a scope without `v` |
| CollectUnionSubqueries.ReturnedValue | packages/graphql/src/translate/projection/subquery/collect-union-subqueries-results.ts:35-38 | over `v`'s rows a list field gets the non-null values in order, a single field the first one or null |
| CollectUnionSubqueries.SingleIsFirstOfArray | packages/graphql/src/translate/projection/subquery/collect-union-subqueries-results.ts:35-38 | the single-field value is the first element of the list-field value, or null |
| CollectUnionSubqueries.SingleIsNullIffNoValue | packages/graphql/src/translate/projection/subquery/collect-union-subqueries-results.ts:36-38 | the single-field value is null iff every row is null |
| CollectUnionSubqueries.NonNullEmpty | packages/graphql/src/translate/projection/subquery/collect-union-subqueries-results.ts:35 | `collect` gives the empty list iff every row is null |

## Left out

- `getDefinitionNodes` is not part of this model. The input is the document already split into object types and union types (`SchemaAst.DefinitionNodes`).
- `getFieldTypeMeta` is not part of this model. Every field carries its unwrapped type name.
- `SCALAR_TYPES` is not part of this model. It is the parameter `scalars`; the examples use the built-in GraphQL scalars.
- `Neo4jGraphQLSchemaModel`, `ConcreteEntity`, `CompositeEntity`, `Attribute` and `CypherAnnotation` are plain datatypes. Their constructors' internals are not shown.
- Error messages are datatype values carrying the name the message reports, not the text.
- `parseArguments` returns a JavaScript object. The model is a `map` from names to strings, without prototype keys such as `__proto__`.
- `typeof statement !== "string"` is not modelled separately. Only string values are recorded, so it never holds.
- `addSortAndLimitOptionsToClause` is not part of this model. It is a function parameter from the options, the target and the `WITH` to the new `WITH`. Its in-place change to a `WITH` that nothing else references is modelled as returning a new value.
- CypherBuilder's rendering to text is not part of this model. Only the clause tree is built. The array `[returnProjection, resultVariable]` passed to `Return` is read as the builder's `[expression, alias]` pair, one column.
- CollectUnionSubqueries.ClausesWellScoped: holds only when the sort step keeps the `WITH` projection `[v]`, because that step is not shown.
- CollectUnionSubqueries.ClausesNeedResultVariable: holds only when the sort step keeps the `WITH` projection `[v]`, because that step is not shown.
- CypherIR.Evaluate: gives `collect` and `head` their Cypher meaning (nulls skipped, `head([])` is null). That meaning comes from the query language, not from this library.
- SchemaExamples.MovieAndActor: states the keys and the value of each key, not the whole map, to keep the proof small.
- The integration test `packages/graphql/tests/integration/issues/2669.int.test.ts` runs a database and is not modelled.
