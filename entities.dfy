/** The schema model: annotations, attributes and entities keyed by name. */
module Entities {
  import opened OrderedMaps

  /** The only annotation kind: a field resolved by a custom Cypher statement. */
  datatype Annotation = CypherAnnotation(statement: string)

  datatype Attribute = Attribute(name: string, annotations: seq<Annotation>)

  datatype ConcreteEntity = ConcreteEntity(name: string, attributes: seq<Attribute>)

  /** A union; it holds the concrete entities its members resolved to. */
  datatype CompositeEntity = CompositeEntity(name: string, concreteEntities: seq<ConcreteEntity>)

  datatype Entity = Concrete(concrete: ConcreteEntity) | Composite(composite: CompositeEntity)

  datatype SchemaModel = SchemaModel(entities: OrderedMap<Entity>)
}
