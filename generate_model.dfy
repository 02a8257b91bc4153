/**
 * The schema model generator: object-type definitions become concrete
 * entities (their scalar fields become attributes, `@cypher` directives
 * become annotations) and union definitions become composite entities
 * whose members are resolved against the concrete entities. The pass stops
 * at the first error.
 */
module GenerateModel {
  import opened Wrappers
  import opened Utils
  import opened OrderedMaps
  import opened SchemaAst
  import opened Entities

  /** The errors the generator throws, each carrying the name it reports. */
  datatype SchemaError =
    | DuplicateNode(name: string)
    | MissingConcreteEntity(name: string)
    | NoConcreteEntities(compositeName: string)
    | CypherStatementRequired

  // ---------------------------------------------------------------------
  // Directive arguments

  /** `args` reduced into `acc`: string-valued arguments are stored by name, others skipped. */
  function AddStringArguments(acc: map<string, string>, args: seq<Argument>): map<string, string>
    decreases |args|
  {
    if args == [] then acc
    else
      var acc' := if args[0].value.StringValue? then acc[args[0].name := args[0].value.value] else acc;
      AddStringArguments(acc', args[1..])
  }

  /** The record `parseArguments` returns for a directive's arguments. */
  function ParsedArguments(args: seq<Argument>): map<string, string> {
    AddStringArguments(map[], args)
  }

  /** The value of the last string-valued argument named `k`, if any. */
  function LastStringArgument(args: seq<Argument>, k: string): (r: Option<string>)
    ensures r.None? <==> forall i :: 0 <= i < |args| ==> !(args[i].name == k && args[i].value.StringValue?)
    ensures r.Some? ==>
      exists i :: 0 <= i < |args| && args[i] == Argument(k, StringValue(r.value)) &&
        forall j :: i < j < |args| ==> !(args[j].name == k && args[j].value.StringValue?)
  {
    if args == [] then None
    else
      match LastStringArgument(args[1..], k)
      case Some(v) => Some(v)
      case None => if args[0].name == k && args[0].value.StringValue? then Some(args[0].value.value) else None
  }

  lemma {:induction false} AddStringArgumentsLookup(acc: map<string, string>, args: seq<Argument>, k: string)
    ensures var r := AddStringArguments(acc, args); var last := LastStringArgument(args, k);
      (k in r <==> k in acc || last.Some?) &&
      (last.Some? ==> r[k] == last.value) &&
      (last.None? && k in acc ==> r[k] == acc[k])
    decreases |args|
  {
    if args != [] {
      var acc' := if args[0].value.StringValue? then acc[args[0].name := args[0].value.value] else acc;
      AddStringArgumentsLookup(acc', args[1..], k);
    }
  }

  /**
   * `parseArguments`: only string-valued arguments are kept, and a later
   * argument overwrites an earlier one of the same name.
   */
  method ParseArguments(directive: Directive) returns (args: map<string, string>)
    ensures args == ParsedArguments(directive.arguments.GetOr([]))
    ensures forall k :: k in args <==> LastStringArgument(directive.arguments.GetOr([]), k).Some?
    ensures forall k :: k in args ==> args[k] == LastStringArgument(directive.arguments.GetOr([]), k).value
  {
    var arguments := directive.arguments.GetOr([]);
    args := map[];
    var i := 0;
    while i < |arguments|
      invariant 0 <= i <= |arguments|
      invariant ParsedArguments(arguments) == AddStringArguments(args, arguments[i..])
    {
      assert arguments[i..][1..] == arguments[i + 1..];
      var argument := arguments[i];
      if argument.value.StringValue? {
        args := args[argument.name := argument.value.value];
      }
      i := i + 1;
    }
    assert arguments[i..] == [];
    forall k
      ensures k in args <==> LastStringArgument(arguments, k).Some?
      ensures k in args ==> args[k] == LastStringArgument(arguments, k).value
    {
      AddStringArgumentsLookup(map[], arguments, k);
    }
  }

  // ---------------------------------------------------------------------
  // Annotations

  /** The `statement` argument of a directive as `parseArguments` reports it. */
  function StatementArgument(directive: Directive): Option<string> {
    LastStringArgument(directive.arguments.GetOr([]), "statement")
  }

  /** `parseCypherAnnotation`: `statement` must be present and a non-empty string. */
  function ParseCypherAnnotation(directive: Directive): (r: Result<Annotation, SchemaError>)
    ensures r.Ok? <==> StatementArgument(directive).Some? && StatementArgument(directive).value != ""
    ensures r.Ok? ==> r.value == CypherAnnotation(StatementArgument(directive).value)
    ensures r.Err? ==> r.error == CypherStatementRequired
  {
    AddStringArgumentsLookup(map[], directive.arguments.GetOr([]), "statement");
    var arguments := ParsedArguments(directive.arguments.GetOr([]));
    if "statement" !in arguments || arguments["statement"] == "" then Err(CypherStatementRequired)
    else Ok(CypherAnnotation(arguments["statement"]))
  }

  /** The `switch` on a directive's name: only `cypher` yields an annotation. */
  function DirectiveAnnotation(directive: Directive): Result<Option<Annotation>, SchemaError> {
    if directive.name == "cypher" then
      var annotation :- ParseCypherAnnotation(directive);
      Ok(Some(annotation))
    else Ok(None)
  }

  /** `createFieldAnnotations`. */
  function CreateFieldAnnotations(directives: seq<Directive>): (r: Result<seq<Annotation>, SchemaError>)
    ensures r.Err? ==> r.error == CypherStatementRequired
  {
    var annotations :- MapResult(directives, DirectiveAnnotation);
    Ok(FilterSome(annotations))
  }

  /** The `@cypher` directives of a list, in order. */
  function CypherDirectives(directives: seq<Directive>): (r: seq<Directive>)
    ensures forall i :: 0 <= i < |r| ==> r[i].name == "cypher"
  {
    if directives == [] then []
    else (if directives[0].name == "cypher" then [directives[0]] else []) + CypherDirectives(directives[1..])
  }

  /** What `parseCypherAnnotation` demands of a directive. */
  predicate HasStatement(directive: Directive) {
    StatementArgument(directive).Some? && StatementArgument(directive).value != ""
  }

  lemma CreateFieldAnnotationsCons(directives: seq<Directive>)
    requires directives != []
    ensures CreateFieldAnnotations(directives) ==
      match DirectiveAnnotation(directives[0])
      case Err(e) => Err(e)
      case Ok(o) =>
        match CreateFieldAnnotations(directives[1..])
        case Err(e) => Err(e)
        case Ok(rest) => Ok((if o.Some? then [o.value] else []) + rest)
  {
    var tail := MapResult(directives[1..], DirectiveAnnotation);
    var head := DirectiveAnnotation(directives[0]);
    if head.Ok? && tail.Ok? {
      FilterSomeCons(head.value, tail.value);
    }
  }

  /**
   * Creating a field's annotations fails exactly when one of its `@cypher`
   * directives lacks a non-empty string statement; other directives are
   * never inspected.
   */
  lemma FieldAnnotationsFail(directives: seq<Directive>)
    ensures CreateFieldAnnotations(directives).Ok? <==>
      forall i :: 0 <= i < |directives| && directives[i].name == "cypher" ==> HasStatement(directives[i])
  {
  }

  /**
   * A field gets one annotation per `@cypher` directive, in directive order,
   * carrying that directive's statement.
   */
  lemma {:induction false} FieldAnnotationsFromCypherDirectives(directives: seq<Directive>)
    requires CreateFieldAnnotations(directives).Ok?
    ensures var cypher := CypherDirectives(directives); var annotations := CreateFieldAnnotations(directives).value;
      |annotations| == |cypher| &&
      forall i :: 0 <= i < |cypher| ==>
        HasStatement(cypher[i]) && annotations[i] == CypherAnnotation(StatementArgument(cypher[i]).value)
    decreases |directives|
  {
    if directives == [] {
      return;
    }
    var d, rest := directives[0], directives[1..];
    CreateFieldAnnotationsCons(directives);
    if rest != [] {
      FieldAnnotationsFromCypherDirectives(rest);
    }
    var cypher, cypherRest := CypherDirectives(directives), CypherDirectives(rest);
    var annotations, annotationsRest := CreateFieldAnnotations(directives).value, CreateFieldAnnotations(rest).value;
    if d.name == "cypher" {
      assert cypher == [d] + cypherRest;
      assert annotations == [CypherAnnotation(StatementArgument(d).value)] + annotationsRest;
      forall i | 0 < i < |cypher|
        ensures HasStatement(cypher[i]) && annotations[i] == CypherAnnotation(StatementArgument(cypher[i]).value)
      {
        assert cypher[i] == cypherRest[i - 1] && annotations[i] == annotationsRest[i - 1];
      }
    } else {
      assert cypher == cypherRest && annotations == annotationsRest;
    }
  }

  // ---------------------------------------------------------------------
  // Fields and concrete entities

  /** `generateField`: a field of scalar type becomes an attribute; any other field yields nothing. */
  function GenerateField(field: FieldDefinition, scalars: set<string>): (r: Result<Option<Attribute>, SchemaError>)
    ensures r.Err? ==> r.error == CypherStatementRequired
  {
    if field.typeName in scalars then
      var annotations :- CreateFieldAnnotations(field.directives.GetOr([]));
      Ok(Some(Attribute(field.name, annotations)))
    else Ok(None)
  }

  /** `fields.map(generateField)` followed by `filterTruthy`. */
  function GenerateAttributes(fields: seq<FieldDefinition>, scalars: set<string>): (r: Result<seq<Attribute>, SchemaError>)
    ensures r.Err? ==> r.error == CypherStatementRequired
  {
    var attributes :- MapResult(fields, (field: FieldDefinition) => GenerateField(field, scalars));
    Ok(FilterSome(attributes))
  }

  /** `generateConcreteEntity`. */
  function GenerateConcreteEntity(definition: ObjectTypeDefinition, scalars: set<string>): (r: Result<ConcreteEntity, SchemaError>)
    ensures r.Ok? ==> r.value.name == definition.name
    ensures r.Err? ==> r.error == CypherStatementRequired
  {
    var attributes :- GenerateAttributes(definition.fields.GetOr([]), scalars);
    Ok(ConcreteEntity(definition.name, attributes))
  }

  /** The fields whose type is a scalar type, in declared order. */
  function ScalarFields(fields: seq<FieldDefinition>, scalars: set<string>): (r: seq<FieldDefinition>)
    ensures forall i :: 0 <= i < |r| ==> r[i].typeName in scalars
  {
    if fields == [] then []
    else (if fields[0].typeName in scalars then [fields[0]] else []) + ScalarFields(fields[1..], scalars)
  }

  /** The annotations `createFieldAnnotations` makes for one field. */
  function FieldAnnotations(field: FieldDefinition): Result<seq<Annotation>, SchemaError> {
    CreateFieldAnnotations(field.directives.GetOr([]))
  }

  lemma GenerateAttributesCons(fields: seq<FieldDefinition>, scalars: set<string>)
    requires fields != []
    ensures GenerateAttributes(fields, scalars) ==
      match GenerateField(fields[0], scalars)
      case Err(e) => Err(e)
      case Ok(o) =>
        match GenerateAttributes(fields[1..], scalars)
        case Err(e) => Err(e)
        case Ok(rest) => Ok((if o.Some? then [o.value] else []) + rest)
  {
    var tail := MapResult(fields[1..], (field: FieldDefinition) => GenerateField(field, scalars));
    var head := GenerateField(fields[0], scalars);
    if head.Ok? && tail.Ok? {
      FilterSomeCons(head.value, tail.value);
    }
  }

  /**
   * Building the attributes fails exactly when a field of scalar type has
   * annotations that fail; fields of other types are never inspected.
   */
  lemma AttributesFail(fields: seq<FieldDefinition>, scalars: set<string>)
    ensures GenerateAttributes(fields, scalars).Ok? <==>
      forall i :: 0 <= i < |fields| && fields[i].typeName in scalars ==> FieldAnnotations(fields[i]).Ok?
  {
  }

  /** The attributes are exactly the fields of scalar type, in declared order, each with its annotations. */
  lemma {:induction false} AttributesFromScalarFields(fields: seq<FieldDefinition>, scalars: set<string>)
    requires GenerateAttributes(fields, scalars).Ok?
    ensures var scalar := ScalarFields(fields, scalars); var attributes := GenerateAttributes(fields, scalars).value;
      |attributes| == |scalar| &&
      forall i :: 0 <= i < |scalar| ==>
        FieldAnnotations(scalar[i]).Ok? && attributes[i] == Attribute(scalar[i].name, FieldAnnotations(scalar[i]).value)
    decreases |fields|
  {
    if fields == [] {
      return;
    }
    var f, rest := fields[0], fields[1..];
    GenerateAttributesCons(fields, scalars);
    if rest != [] {
      AttributesFromScalarFields(rest, scalars);
    }
    var scalar, scalarRest := ScalarFields(fields, scalars), ScalarFields(rest, scalars);
    var attributes, attributesRest := GenerateAttributes(fields, scalars).value, GenerateAttributes(rest, scalars).value;
    if f.typeName in scalars {
      assert scalar == [f] + scalarRest;
      assert attributes == [Attribute(f.name, FieldAnnotations(f).value)] + attributesRest;
      forall i | 0 < i < |scalar|
        ensures FieldAnnotations(scalar[i]).Ok? && attributes[i] == Attribute(scalar[i].name, FieldAnnotations(scalar[i]).value)
      {
        assert scalar[i] == scalarRest[i - 1] && attributes[i] == attributesRest[i - 1];
      }
    } else {
      assert scalar == scalarRest && attributes == attributesRest;
    }
  }

  /** Building the attributes sees only the fields of scalar type. */
  lemma {:induction false} AttributesOfScalarFields(fields: seq<FieldDefinition>, scalars: set<string>)
    ensures GenerateAttributes(fields, scalars) == GenerateAttributes(ScalarFields(fields, scalars), scalars)
    decreases |fields|
  {
    if fields != [] {
      var f, rest := fields[0], fields[1..];
      AttributesOfScalarFields(rest, scalars);
      assert GenerateAttributes(rest, scalars) == GenerateAttributes(ScalarFields(rest, scalars), scalars);
      GenerateAttributesCons(fields, scalars);
      if f.typeName in scalars {
        var scalar := ScalarFields(fields, scalars);
        assert scalar == [f] + ScalarFields(rest, scalars);
        assert scalar[0] == f && scalar[1..] == ScalarFields(rest, scalars);
        GenerateAttributesCons(scalar, scalars);
      } else {
        assert GenerateField(f, scalars) == Ok(None);
        assert ScalarFields(fields, scalars) == ScalarFields(rest, scalars);
        if GenerateAttributes(rest, scalars).Ok? {
          assert [] + GenerateAttributes(rest, scalars).value == GenerateAttributes(rest, scalars).value;
        }
      }
    }
  }

  /** Every field of scalar type is among the scalar fields. */
  lemma {:induction false} ScalarFieldsMember(fields: seq<FieldDefinition>, scalars: set<string>, i: int)
    requires 0 <= i < |fields| && fields[i].typeName in scalars
    ensures fields[i] in ScalarFields(fields, scalars)
    decreases |fields|
  {
    if i > 0 {
      ScalarFieldsMember(fields[1..], scalars, i - 1);
      assert fields[1..][i - 1] == fields[i];
    }
  }

  /**
   * A concrete entity has the object type's name; its attributes are the
   * fields of scalar type, in declared order; it fails only through the
   * `@cypher` directives of those fields.
   */
  lemma ConcreteEntityFromScalarFields(definition: ObjectTypeDefinition, scalars: set<string>)
    ensures var fields := definition.fields.GetOr([]);
      var scalar := ScalarFields(fields, scalars);
      var r := GenerateConcreteEntity(definition, scalars);
      (r.Ok? <==> forall i :: 0 <= i < |fields| && fields[i].typeName in scalars ==> FieldAnnotations(fields[i]).Ok?) &&
      (r.Ok? ==>
         r.value.name == definition.name && |r.value.attributes| == |scalar| &&
         forall i :: 0 <= i < |scalar| ==>
           FieldAnnotations(scalar[i]).Ok? &&
           r.value.attributes[i] == Attribute(scalar[i].name, FieldAnnotations(scalar[i]).value))
  {
    var fields := definition.fields.GetOr([]);
    AttributesFail(fields, scalars);
    if GenerateAttributes(fields, scalars).Ok? {
      AttributesFromScalarFields(fields, scalars);
    }
  }

  /** Removing the fields of non-scalar type changes nothing. */
  lemma NonScalarFieldsDropped(definition: ObjectTypeDefinition, scalars: set<string>)
    ensures GenerateConcreteEntity(definition, scalars) ==
            GenerateConcreteEntity(definition.(fields := Some(ScalarFields(definition.fields.GetOr([]), scalars))), scalars)
  {
    AttributesOfScalarFields(definition.fields.GetOr([]), scalars);
  }

  // ---------------------------------------------------------------------
  // Composite entities

  /** The member type names of a union, `[]` when the list is absent. */
  function Members(definition: UnionTypeDefinition): seq<string> {
    definition.types.GetOr([])
  }

  /** `concreteEntities.get(typeName)`, throwing when it is not there. */
  function ResolveMember(concreteEntities: OrderedMap<ConcreteEntity>, typeName: string): Result<ConcreteEntity, SchemaError> {
    if typeName in concreteEntities.values then Ok(concreteEntities.values[typeName])
    else Err(MissingConcreteEntity(typeName))
  }

  /**
   * `generateCompositeEntity`: the composite holds, in the union's order and
   * with repeats kept, the concrete entity of every member name.
   */
  function GenerateCompositeEntity(definition: UnionTypeDefinition, concreteEntities: OrderedMap<ConcreteEntity>): (r: Result<CompositeEntity, SchemaError>)
    ensures var members := Members(definition);
      r.Ok? <==> members != [] && forall i :: 0 <= i < |members| ==> members[i] in concreteEntities.values
    ensures var members := Members(definition);
      r.Ok? ==>
        r.value.name == definition.name && |r.value.concreteEntities| == |members| &&
        forall i :: 0 <= i < |members| ==> r.value.concreteEntities[i] == concreteEntities.values[members[i]]
    ensures r.Err? ==> r.error == NoConcreteEntities(definition.name) || r.error.MissingConcreteEntity?
  {
    var compositeFields :- MapResult(Members(definition), (typeName: string) => ResolveMember(concreteEntities, typeName));
    if |compositeFields| == 0 then Err(NoConcreteEntities(definition.name))
    else Ok(CompositeEntity(definition.name, compositeFields))
  }

  /** The first member name with no concrete entity is the one reported. */
  lemma UnresolvedMemberFails(definition: UnionTypeDefinition, concreteEntities: OrderedMap<ConcreteEntity>, i: int)
    requires 0 <= i < |Members(definition)| && Members(definition)[i] !in concreteEntities.values
    requires forall k :: 0 <= k < i ==> Members(definition)[k] in concreteEntities.values
    ensures GenerateCompositeEntity(definition, concreteEntities) == Err(MissingConcreteEntity(Members(definition)[i]))
  {
    var members := Members(definition);
    var resolved := MapResult(members, (typeName: string) => ResolveMember(concreteEntities, typeName));
    assert ResolveMember(concreteEntities, members[i]).Err?;
    var j :| 0 <= j < |members| && ResolveMember(concreteEntities, members[j]) == Err(resolved.error) &&
             forall k :: 0 <= k < j ==> ResolveMember(concreteEntities, members[k]).Ok?;
    assert ResolveMember(concreteEntities, members[i]).Err?;
    assert !(j < i) && !(i < j);
  }

  /** A union without members fails, naming the union. */
  lemma EmptyUnionFails(definition: UnionTypeDefinition, concreteEntities: OrderedMap<ConcreteEntity>)
    requires Members(definition) == []
    ensures GenerateCompositeEntity(definition, concreteEntities) == Err(NoConcreteEntities(definition.name))
  {
  }

  // ---------------------------------------------------------------------
  // The whole model

  function ObjectTypeNames(objectTypes: seq<ObjectTypeDefinition>): seq<string> {
    seq(|objectTypes|, i requires 0 <= i < |objectTypes| => objectTypes[i].name)
  }

  function UnionTypeNames(unionTypes: seq<UnionTypeDefinition>): seq<string> {
    seq(|unionTypes|, i requires 0 <= i < |unionTypes| => unionTypes[i].name)
  }

  /** `objectTypes.map(generateConcreteEntity)`. */
  function GenerateConcreteEntities(objectTypes: seq<ObjectTypeDefinition>, scalars: set<string>): (r: Result<seq<ConcreteEntity>, SchemaError>)
    ensures r.Ok? ==>
      |r.value| == |objectTypes| &&
      forall i :: 0 <= i < |objectTypes| ==> GenerateConcreteEntity(objectTypes[i], scalars) == Ok(r.value[i])
  {
    MapResult(objectTypes, (definition: ObjectTypeDefinition) => GenerateConcreteEntity(definition, scalars))
  }

  /** The reduce over the concrete entities: a name already in `acc` is a duplicate. */
  function AddConcreteEntities(acc: OrderedMap<ConcreteEntity>, entities: seq<ConcreteEntity>): (r: Result<OrderedMap<ConcreteEntity>, SchemaError>)
    ensures acc.Valid() && r.Ok? ==> r.value.Valid()
    ensures r.Err? ==> r.error.DuplicateNode?
    decreases |entities|
  {
    if entities == [] then Ok(acc)
    else if entities[0].name in acc.values then Err(DuplicateNode(entities[0].name))
    else AddConcreteEntities(acc.Insert(entities[0].name, entities[0]), entities[1..])
  }

  function NamedConcrete(entities: seq<ConcreteEntity>): seq<(string, ConcreteEntity)> {
    seq(|entities|, i requires 0 <= i < |entities| => (entities[i].name, entities[i]))
  }

  function NamedComposite(entities: seq<CompositeEntity>): seq<(string, CompositeEntity)> {
    seq(|entities|, i requires 0 <= i < |entities| => (entities[i].name, entities[i]))
  }

  /** The map of concrete entities the first reduce builds. */
  function ConcreteEntityMap(objectTypes: seq<ObjectTypeDefinition>, scalars: set<string>): (r: Result<OrderedMap<ConcreteEntity>, SchemaError>)
    ensures r.Ok? ==> r.value.Valid()
  {
    var entities :- GenerateConcreteEntities(objectTypes, scalars);
    AddConcreteEntities(Empty(), entities)
  }

  /** `unionTypes.map(generateCompositeEntity)`. */
  function GenerateCompositeEntities(unionTypes: seq<UnionTypeDefinition>, concreteEntities: OrderedMap<ConcreteEntity>): (r: Result<seq<CompositeEntity>, SchemaError>)
    ensures r.Ok? ==>
      |r.value| == |unionTypes| &&
      forall i :: 0 <= i < |unionTypes| ==> GenerateCompositeEntity(unionTypes[i], concreteEntities) == Ok(r.value[i])
  {
    MapResult(unionTypes, (definition: UnionTypeDefinition) => GenerateCompositeEntity(definition, concreteEntities))
  }

  /** The map of composite entities the second reduce builds; it checks no names. */
  function CompositeEntityMap(unionTypes: seq<UnionTypeDefinition>, concreteEntities: OrderedMap<ConcreteEntity>): (r: Result<OrderedMap<CompositeEntity>, SchemaError>)
    ensures r.Ok? ==> r.value.Valid()
  {
    var entities :- GenerateCompositeEntities(unionTypes, concreteEntities);
    Ok(MapFromEntries(NamedComposite(entities)))
  }

  function ConcreteEntries(concrete: OrderedMap<ConcreteEntity>): seq<(string, Entity)>
    requires concrete.Valid()
  {
    seq(|concrete.keys|, i requires 0 <= i < |concrete.keys| => (concrete.keys[i], Concrete(concrete.values[concrete.keys[i]])))
  }

  function CompositeEntries(composite: OrderedMap<CompositeEntity>): seq<(string, Entity)>
    requires composite.Valid()
  {
    seq(|composite.keys|, i requires 0 <= i < |composite.keys| => (composite.keys[i], Composite(composite.values[composite.keys[i]])))
  }

  /** `generateModel`, as a function of the definitions and the scalar type names. */
  function GenerateModelSpec(definitions: DefinitionNodes, scalars: set<string>): Result<SchemaModel, SchemaError> {
    var concrete :- ConcreteEntityMap(definitions.objectTypes, scalars);
    var composite :- CompositeEntityMap(definitions.unionTypes, concrete);
    Ok(SchemaModel(MapFromEntries(ConcreteEntries(concrete) + CompositeEntries(composite))))
  }

  /** The first reduce of `generateModel`: fills a map in place, failing at the first repeated name. */
  method ReduceConcreteEntities(entities: seq<ConcreteEntity>) returns (r: Result<OrderedMap<ConcreteEntity>, SchemaError>)
    ensures r == AddConcreteEntities(Empty(), entities)
  {
    var concreteEntities := new InsertionMap<ConcreteEntity>();
    var i := 0;
    while i < |entities|
      invariant 0 <= i <= |entities|
      invariant AddConcreteEntities(Empty(), entities) == AddConcreteEntities(concreteEntities.Snapshot(), entities[i..])
    {
      var entity := entities[i];
      assert entities[i..][1..] == entities[i + 1..];
      if concreteEntities.Has(entity.name) {
        return Err(DuplicateNode(entity.name));
      }
      concreteEntities.Set(entity.name, entity);
      i := i + 1;
    }
    assert entities[i..] == [];
    r := Ok(concreteEntities.Snapshot());
  }

  /** The second reduce of `generateModel`: a later composite of the same name overwrites an earlier one. */
  method ReduceCompositeEntities(entities: seq<CompositeEntity>) returns (m: OrderedMap<CompositeEntity>)
    ensures m == MapFromEntries(NamedComposite(entities))
  {
    var named := NamedComposite(entities);
    var compositeEntities := new InsertionMap<CompositeEntity>();
    var j := 0;
    while j < |entities|
      invariant 0 <= j <= |entities|
      invariant MapFromEntries(named) == compositeEntities.Snapshot().InsertAll(named[j..])
    {
      assert named[j..][1..] == named[j + 1..];
      compositeEntities.Set(entities[j].name, entities[j]);
      j := j + 1;
    }
    assert named[j..] == [];
    m := compositeEntities.Snapshot();
  }

  /** `generateModel`: the two reduces, then a new map holding the concrete entries followed by the composite ones. */
  method GenerateModel(definitions: DefinitionNodes, scalars: set<string>) returns (r: Result<SchemaModel, SchemaError>)
    ensures r == GenerateModelSpec(definitions, scalars)
  {
    var built := GenerateConcreteEntities(definitions.objectTypes, scalars);
    if built.Err? {
      return Err(built.error);
    }
    var concreteEntities := ReduceConcreteEntities(built.value);
    if concreteEntities.Err? {
      return Err(concreteEntities.error);
    }
    var concrete := concreteEntities.value;
    var composites := GenerateCompositeEntities(definitions.unionTypes, concrete);
    if composites.Err? {
      return Err(composites.error);
    }
    var composite := ReduceCompositeEntities(composites.value);
    var all := new InsertionMap<Entity>.FromEntries(ConcreteEntries(concrete) + CompositeEntries(composite));
    r := Ok(SchemaModel(all.Snapshot()));
  }
}
