/** The part of a parsed GraphQL document that the converter reads.
    Every list that the parser may leave undefined is an `Option`. */
module GraphQL {
  import opened Options

  /** A type reference: a bare name, a list of a type, or a non-null type. */
  datatype TypeNode =
    | NamedType(name: string)
    | ListType(elementType: TypeNode)
    | NonNullType(nullableType: TypeNode)

  /** A directive argument `name: value`. Literal values are kept as their text. */
  datatype Argument = Argument(name: string, value: string)

  /** A directive `@name(arguments)`; `arguments` may be absent. */
  datatype Directive = Directive(name: string, arguments: Option<seq<Argument>>)

  datatype FieldDefinition = FieldDefinition(
    name: string,
    fieldType: TypeNode,
    directives: Option<seq<Directive>>)

  datatype EnumValueDefinition = EnumValueDefinition(name: string)

  datatype ObjectTypeDefinition = ObjectTypeDefinition(
    name: string,
    fields: Option<seq<FieldDefinition>>,
    directives: Option<seq<Directive>>)

  datatype EnumTypeDefinition = EnumTypeDefinition(
    name: string,
    values: Option<seq<EnumValueDefinition>>)

  /** The `kind` tag of any definition that is neither an object nor an enum
      type definition (scalars, interfaces, unions, inputs, directive
      definitions, schema definitions, operations, ...). */
  type OtherKind = k: string | k != "ObjectTypeDefinition" && k != "EnumTypeDefinition"
    witness "ScalarTypeDefinition"

  /** A top-level definition. Object and enum type definitions carry their
      contents; every other kind carries only its tag. */
  datatype Definition =
    | ObjectDef(objectType: ObjectTypeDefinition)
    | EnumDef(enumType: EnumTypeDefinition)
    | OtherDef(kind: OtherKind)

  /** The definition's `kind` tag. */
  function Kind(d: Definition): string
  {
    match d
    case ObjectDef(_) => "ObjectTypeDefinition"
    case EnumDef(_) => "EnumTypeDefinition"
    case OtherDef(k) => k
  }

  datatype Document = Document(definitions: seq<Definition>)
}
