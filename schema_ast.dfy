/**
 * The parsed schema document, already split into object-type and
 * union-type definitions. An optional list stands for a list the parser
 * may leave `undefined`.
 */
module SchemaAst {
  import opened Wrappers

  /** A directive argument's value, one variant per syntactic kind. */
  datatype Value =
    | StringValue(value: string)
    | IntValue(digits: string)
    | FloatValue(digits: string)
    | BooleanValue(b: bool)
    | NullValue
    | EnumValue(name: string)
    | ListValue(values: seq<Value>)
    | ObjectValue(fields: seq<(string, Value)>)
    | VariableValue(name: string)

  datatype Argument = Argument(name: string, value: Value)

  datatype Directive = Directive(name: string, arguments: Option<seq<Argument>>)

  /** A field; `typeName` is its declared type with list and non-null wrappers removed. */
  datatype FieldDefinition = FieldDefinition(name: string, typeName: string, directives: Option<seq<Directive>>)

  datatype ObjectTypeDefinition = ObjectTypeDefinition(name: string, fields: Option<seq<FieldDefinition>>)

  /** A union; `types` are the names of its member types. */
  datatype UnionTypeDefinition = UnionTypeDefinition(name: string, types: Option<seq<string>>)

  datatype DefinitionNodes = DefinitionNodes(objectTypes: seq<ObjectTypeDefinition>, unionTypes: seq<UnionTypeDefinition>)
}
