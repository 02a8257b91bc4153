/**
 * What the model generator gives for small schemas: what a schema of two
 * object types becomes, and how each kind of error surfaces. Each example
 * follows from the general properties of the generator.
 */
module SchemaExamples {
  import opened Wrappers
  import opened SchemaAst
  import opened Entities
  import opened GenerateModel
  import opened ModelProperties

  const Scalars: set<string> := {"ID", "String", "Int", "Float", "Boolean"}

  const Title := FieldDefinition("title", "String", None)
  const Actors := FieldDefinition("actors", "Actor",
    Some([Directive("relationship", Some([Argument("type", StringValue("ACTED_IN"))]))]))
  const Name := FieldDefinition("name", "String", None)
  const Movie := ObjectTypeDefinition("Movie", Some([Title, Actors]))
  const Actor := ObjectTypeDefinition("Actor", Some([Name]))

  const MovieEntity := ConcreteEntity("Movie", [Attribute("title", [])])
  const ActorEntity := ConcreteEntity("Actor", [Attribute("name", [])])

  function CypherField(arguments: Option<seq<Argument>>): FieldDefinition {
    FieldDefinition("summary", "String", Some([Directive("cypher", arguments)]))
  }

  /** A field of scalar type without directives becomes a bare attribute; a relationship field is dropped. */
  lemma MovieAndActorEntities()
    ensures GenerateConcreteEntity(Movie, Scalars) == Ok(MovieEntity)
    ensures GenerateConcreteEntity(Actor, Scalars) == Ok(ActorEntity)
  {
    assert FieldAnnotations(Title) == Ok([]);
    assert FieldAnnotations(Name) == Ok([]);
    assert ScalarFields([Title, Actors], Scalars) == [Title] by {
      assert [Title, Actors][1..] == [Actors];
      assert [Actors][1..] == [];
      assert Actors.typeName !in Scalars by {
        assert |"Actor"| == 5 && "Actor"[0] != "Float"[0];
      }
      assert ScalarFields([Actors], Scalars) == [];
    }
    assert ScalarFields([Name], Scalars) == [Name] by {
      assert [Name][1..] == [];
    }
    OneScalarField(Movie, Title);
    OneScalarField(Actor, Name);
  }

  lemma OneScalarField(definition: ObjectTypeDefinition, field: FieldDefinition)
    requires field.typeName in Scalars && FieldAnnotations(field).Ok?
    requires ScalarFields(definition.fields.GetOr([]), Scalars) == [field]
    ensures GenerateConcreteEntity(definition, Scalars) ==
      Ok(ConcreteEntity(definition.name, [Attribute(field.name, FieldAnnotations(field).value)]))
  {
    ConcreteEntityFromScalarFields(definition, Scalars);
    var fields := definition.fields.GetOr([]);
    forall i | 0 <= i < |fields| && fields[i].typeName in Scalars
      ensures FieldAnnotations(fields[i]).Ok?
    {
      ScalarFieldsMember(fields, Scalars, i);
    }
    var r := GenerateConcreteEntity(definition, Scalars);
    assert r.Ok?;
    assert r.value.attributes[0] == Attribute(field.name, FieldAnnotations(field).value);
    assert r.value.attributes == [Attribute(field.name, FieldAnnotations(field).value)];
  }

  /** The concrete map of the two object types, in declared order. */
  lemma MovieAndActorConcrete()
    ensures var r := ConcreteEntityMap([Movie, Actor], Scalars);
      r.Ok? && r.value.Valid() && r.value.keys == ["Movie", "Actor"] &&
      r.value.values["Movie"] == MovieEntity && r.value.values["Actor"] == ActorEntity
  {
    MovieAndActorEntities();
    var objectTypes := [Movie, Actor];
    assert GenerateConcreteEntities(objectTypes, Scalars).Ok?;
    assert ObjectTypeNames(objectTypes) == ["Movie", "Actor"];
    DistinctObjectTypesKeepOrder(objectTypes, Scalars);
    assert objectTypes[0] == Movie && objectTypes[1] == Actor;
  }

  /** Two object types give two concrete entities in declared order. */
  lemma MovieAndActor()
    ensures var r := GenerateModelSpec(DefinitionNodes([Movie, Actor], []), Scalars);
      r.Ok? && r.value.entities.keys == ["Movie", "Actor"] &&
      r.value.entities.values["Movie"] == Concrete(MovieEntity) &&
      r.value.entities.values["Actor"] == Concrete(ActorEntity)
  {
    var objectTypes := [Movie, Actor];
    MovieAndActorEntities();
    assert GenerateConcreteEntities(objectTypes, Scalars).Ok?;
    assert ObjectTypeNames(objectTypes) == ["Movie", "Actor"];
    ObjectTypesOnlyModel(objectTypes, Scalars);
    assert objectTypes[0] == Movie && objectTypes[1] == Actor;
  }

  /** A union member that names no object type is reported by name. */
  lemma MissingUnionMember()
    ensures GenerateModelSpec(DefinitionNodes([Movie, Actor], [UnionTypeDefinition("Person", Some(["Actor", "Director"]))]), Scalars) ==
      Err(MissingConcreteEntity("Director"))
  {
    var person := UnionTypeDefinition("Person", Some(["Actor", "Director"]));
    MovieAndActorConcrete();
    var concrete := ConcreteEntityMap([Movie, Actor], Scalars).value;
    UnresolvedMemberFails(person, concrete, 1);
    UnionErrorStopsGeneration(DefinitionNodes([Movie, Actor], [person]), Scalars, 0);
  }

  /** A union without members is an error naming the union. */
  lemma EmptyUnion()
    ensures GenerateModelSpec(DefinitionNodes([Movie, Actor], [UnionTypeDefinition("Person", None)]), Scalars) ==
      Err(NoConcreteEntities("Person"))
  {
    MovieAndActorConcrete();
    var concrete := ConcreteEntityMap([Movie, Actor], Scalars).value;
    EmptyUnionFails(UnionTypeDefinition("Person", None), concrete);
    UnionErrorStopsGeneration(DefinitionNodes([Movie, Actor], [UnionTypeDefinition("Person", None)]), Scalars, 0);
  }

  /** `@cypher` without a statement, with a non-string statement, or with an empty one, is refused. */
  lemma CypherWithoutStatement(arguments: Option<seq<Argument>>)
    requires arguments in {None, Some([Argument("statement", IntValue("5"))]), Some([Argument("statement", StringValue(""))])}
    ensures GenerateConcreteEntity(ObjectTypeDefinition("Review", Some([CypherField(arguments)])), Scalars) ==
      Err(CypherStatementRequired)
  {
    var field := CypherField(arguments);
    assert !HasStatement(field.directives.value[0]);
    FieldAnnotationsFail(field.directives.value);
    AttributesFail([field], Scalars);
  }

  /** A `@cypher` statement becomes the attribute's annotation; the last string value of an argument wins. */
  lemma CypherStatementKept()
    ensures var field := CypherField(Some([Argument("statement", StringValue("MATCH (n) RETURN n")),
                                           Argument("statement", StringValue("RETURN 1")),
                                           Argument("statement", IntValue("2"))]));
      GenerateConcreteEntity(ObjectTypeDefinition("Review", Some([field])), Scalars) ==
        Ok(ConcreteEntity("Review", [Attribute("summary", [CypherAnnotation("RETURN 1")])]))
  {
    var field := CypherField(Some([Argument("statement", StringValue("MATCH (n) RETURN n")),
                                   Argument("statement", StringValue("RETURN 1")),
                                   Argument("statement", IntValue("2"))]));
    var directive := field.directives.value[0];
    assert StatementArgument(directive) == Some("RETURN 1");
    FieldAnnotationsFail(field.directives.value);
    FieldAnnotationsFromCypherDirectives(field.directives.value);
    assert CypherDirectives(field.directives.value) == [directive];
    var annotations := FieldAnnotations(field).value;
    assert annotations[0] == CypherAnnotation("RETURN 1");
    assert annotations == [CypherAnnotation("RETURN 1")];
    assert ScalarFields([field], Scalars) == [field] by {
      assert [field][1..] == [];
    }
    OneScalarField(ObjectTypeDefinition("Review", Some([field])), field);
  }

  /** A repeated object type name fails, naming the type. */
  lemma DuplicateMovie()
    ensures GenerateModelSpec(DefinitionNodes([Movie, Actor, Movie], []), Scalars) == Err(DuplicateNode("Movie"))
  {
    MovieAndActorEntities();
    var definitions := DefinitionNodes([Movie, Actor, Movie], []);
    assert GenerateConcreteEntities(definitions.objectTypes, Scalars).Ok?;
    var names := ObjectTypeNames(definitions.objectTypes);
    assert names[0] == "Movie" && names[1] == "Actor" && names[2] == "Movie";
    assert names == ["Movie", "Actor", "Movie"];
    assert FirstRepeat(ObjectTypeNames(definitions.objectTypes), 2);
    DuplicateObjectTypeFails(definitions, Scalars, 2);
  }

  /** Every object type is built before names are compared, so a `@cypher` error beats an earlier duplicate. */
  lemma CypherErrorBeatsDuplicate()
    ensures GenerateModelSpec(DefinitionNodes([Movie, Movie, ObjectTypeDefinition("Review", Some([CypherField(None)]))], []), Scalars) ==
      Err(CypherStatementRequired)
  {
    var review := ObjectTypeDefinition("Review", Some([CypherField(None)]));
    var definitions := DefinitionNodes([Movie, Movie, review], []);
    MovieAndActorEntities();
    CypherWithoutStatement(None);
    assert definitions.objectTypes[2] == review;
    assert forall k :: 0 <= k < 2 ==> definitions.objectTypes[k] == Movie;
    ConcreteErrorsComeFirst(definitions, Scalars, 2);
  }
}
