# prisma-converter: the record-building core, in Dafny

prisma-converter turns a Prisma 1 datamodel into a Prisma 2 schema. It parses
the Prisma 1 GraphQL SDL and walks the document's definitions. Each object type
definition becomes a `Model` record with its `Field` records. Each enum type
definition becomes an `Enum` record. A fixed Mustache template then renders
these records as Prisma 2 schema text.

This project models the record-building part as pure functions over immutable
datatypes, and proves the properties that the template relies on.

- `options.dfy`, module `Options`: `Option`, used for every property the parser may leave `undefined`.
- `graphql.dfy`, module `GraphQL`: the part of the GraphQL AST the converter reads. This covers type references (`NamedType | ListType | NonNullType`), directives with their arguments, field, enum value, object and enum definitions, and a definition sum type.
- `type_shape.dfy`, module `TypeShape`: `isListTypeNode`, `isNonNullTypeNode` and the innermost-named-type unwrap (`extractType`). It also has a reference description of a type as a named type under a sequence of `List`/`NonNull` modifiers.
- `directives.dfy`, module `Directives`: `includeDirective`, and `getFieldDirectives` with its two nested `reduce` calls. Both reductions use one left fold into a map, `Collect`, where later writes win.
- `sequences.dfy`, module `Sequences`: `map`, and `filter` by a type guard (`Select`). Both preserve order.
- `converter.dfy`, module `Converter`: the `Field`, `Model` and `Enum` records, plus `convertType`, `convertField`, `convertModel`, `convertEnum`, `isModel`, `isEnum` and the record stage of `convertDocument`.

Modelling choices:

- A definition's `kind` tag is `GraphQL.Kind`. `ObjectDef` and `EnumDef` carry their contents. Every other kind is `OtherDef(kind)`, whose tag is neither `ObjectTypeDefinition` nor `EnumTypeDefinition`.
- Directive argument values are kept as strings. The source reads `.value` of the literal node without checking its type.
- `getFieldDirectives` gives `None` for an undefined directive list. Otherwise it gives a map from directive name to `ArgumentValues`. That is `Null` when the directive's argument list is undefined (`args || null`). Otherwise it is `Values(m)`, where an empty argument list gives the empty map.
- `Field.default` and `Field.relation` have type `Option<ArgumentValues>`. `None` stands for `undefined`, `Some(Null)` for `null`, and `Some(Values(m))` for the argument object passed through.
- The source's `Field.type` is `typeName` here, because `type` is a Dafny keyword.
- `extractType` comes from `@graphql-toolkit/schema-merging`, which is not part of this model. It is assumed to unwrap `ListType` and `NonNullType` down to the innermost `NamedType` and return that name. `TypeShape.ExtractType` is that assumption.

The `Field` type declares shaped records for two of its properties
(src/index.ts:80-86): `default?: { value: string }` and
`relation?: { name, link, onDelete }`. The code does not build those shapes.
Lines 145-146 cast the raw argument map of the field's `@default` or
`@relation` directive into them, without checking its keys. The model keeps
what the code does. `default` and `relation` hold the directive's argument map
as it is. A directive written without arguments reduces to `{}`. Only an
undefined `arguments` list gives `null` (src/index.ts:209-222).

## Model

| member | source | states |
|---|---|---|
| TypeShape.IsListTypeNode | src/index.ts:154-166 | a type is a list exactly when it is a `ListType` once every outer `NonNullType` is stripped: deep through non-null, false for a named type |
| TypeShape.IsListByModifiers | src/index.ts:154-166 | a type is a list exactly when its first modifier that is not `NonNull` exists and is `List` |
| TypeShape.IsNonNullTypeNode | src/index.ts:172-184 | non-null exactly when the first (outermost) modifier is `NonNull`; nothing deeper is looked at |
| TypeShape.DeepListShallowNonNull | src/index.ts:154-184 | `NonNullType(x)` is a list iff `x` is; `NonNullType(x)` is non-null; `ListType(NonNullType(x))` is not non-null; `NonNullType(ListType(x))` is a list |
| TypeShape.ListShapes | src/index.ts:154-166 | `[T]` and `[T]!` are lists; a bare `T` is not |
| TypeShape.ExtractType | src/index.ts:129 | every type is the returned name wrapped in the type's own modifiers |
| TypeShape.ExtractTypeOfWrap | src/index.ts:129 | unwrapping a wrapped name gives back the name and the modifiers (round trip) |
| TypeShape.StripNonNull | src/index.ts:159-161 | the stripped type has no outer `NonNullType` and keeps the innermost named type; its modifiers are the original ones after a prefix made only of `NonNull` |
| Directives.Collect | src/index.ts:208-224 | the spread-reduce's keys are exactly the keys of the reduced elements, and the last element's key holds its value |
| Directives.CollectLastWins | src/index.ts:208-224 | each key holds the value of the last element with that key (last write wins) |
| Directives.ArgumentMap | src/index.ts:209-218 | the argument map's keys are the argument names; a repeated argument name keeps its last value |
| Directives.DirectiveArguments | src/index.ts:209-222 | a directive's entry is `Null` exactly when its argument list is undefined; an empty argument list gives the empty map |
| Directives.GetFieldDirectives | src/index.ts:201-225 | `None` exactly for an undefined directive list; otherwise the key set is exactly the field's directive names, and each name holds the arguments of its last occurrence |
| Directives.RepeatedDirectiveLastWins | src/index.ts:220-223 | of two directives with one name, the later one's arguments are kept |
| Directives.AnyNamed | src/index.ts:237 | `some` is true exactly when the name is among the directive names |
| Directives.IncludeDirective | src/index.ts:233-238 | true exactly when the list is defined and holds a directive with the name; false for an undefined list |
| Directives.IncludeAgreesWithDirectiveMap | src/index.ts:140-146 | a name is a key of the field's directive map exactly when `includeDirective` finds it |
| Converter.ConvertType | src/index.ts:190-199 | `ID` becomes `String`; every other name is unchanged; the result is never `ID` |
| Converter.ConvertTypeIdempotent | src/index.ts:190-199 | renaming twice equals renaming once |
| Converter.LookupDirective | src/index.ts:145-146 | `directives?.[name]` is present exactly when the map is defined and has the key, and is then that entry |
| Converter.ConvertField | src/index.ts:128-148 | the field keeps its name; its type is the renamed core named type; `optional` and `list` are never both true; `optional` holds exactly for a bare named type; `list` holds exactly for a list under non-null markers; each flag holds exactly when its directive is present; `default`/`relation` are present exactly when their directive is, and then carry that directive's last arguments |
| Converter.UndecoratedField | src/index.ts:140-146 | a field without directives has every flag false and no `default` or `relation` |
| Converter.ConvertModel | src/index.ts:116-122 | the model keeps its name; `isRelationTable` holds exactly when `@relationTable` is present; its fields are the converted fields in the same order and number, or none when fields are undefined |
| Converter.FieldModifiersExclusive | src/index.ts:136-138 | no field of a converted model is both optional and a list |
| Converter.ConvertEnum | src/index.ts:240-245 | the enum keeps its name; its members are the value names in the same order and number, or none when values are undefined |
| Converter.IsModel | src/index.ts:253-255 | the `kind` tag test selects exactly the object type definitions |
| Converter.IsEnum | src/index.ts:249-251 | the `kind` tag test selects exactly the enum type definitions |
| Converter.ConvertModelFieldsAppend | src/index.ts:119 | splitting a model's field list splits its converted fields at the same point (order kept) |
| Converter.ConvertEnumValuesAppend | src/index.ts:243 | splitting an enum's value list splits its members at the same point (order kept) |
| Converter.ObjectDefinitions | src/index.ts:107 | an object type definition is selected exactly when it is in the document |
| Converter.EnumDefinitions | src/index.ts:108 | an enum type definition is selected exactly when it is in the document |
| Converter.ObjectDefinitionsAppend | src/index.ts:107 | `filter(isModel)` distributes over concatenation, so object definitions keep document order and multiplicity |
| Converter.EnumDefinitionsAppend | src/index.ts:108 | `filter(isEnum)` distributes over concatenation, so enum definitions keep document order and multiplicity |
| Converter.ConvertDocument | src/index.ts:104-108 | the models are the converted object definitions and the enums the converted enum definitions, position by position |
| Converter.ConvertDocumentAppend | src/index.ts:105-108 | converting a concatenation concatenates the models and the enums, so document order is kept |
| Converter.ConvertSingleDefinition | src/index.ts:249-255 | an object definition yields one model, an enum definition one enum, any other kind nothing |
| Converter.OtherDefinitionDropped | src/index.ts:105-108 | inserting a definition of any other kind anywhere changes nothing |
| Converter.ConvertDocumentSize | src/index.ts:105-108 | each definition yields at most one record |
| Converter.UserScenario | src/index.ts:116-148 | `type User @relationTable { id: ID! @id, email: String @unique }` gives the expected model and fields |
| Converter.RoleScenario | src/index.ts:240-245 | `enum Role { ADMIN USER }` gives `Role` with members `ADMIN`, `USER` in order |
| Sequences.Map | src/index.ts:107-108 | `map` keeps the length and applies the function at each position |
| Sequences.MapAppend | src/index.ts:107-108 | `map` distributes over concatenation |
| Sequences.Select | src/index.ts:107-108 | `filter` with narrowing selects no more elements than the input holds |
| Sequences.SelectSingle | src/index.ts:107-108 | a one-element input is selected exactly when the selector accepts it |
| Sequences.SelectMembers | src/index.ts:107-108 | `filter` with narrowing keeps every accepted element and only accepted ones |
| Sequences.SelectAppend | src/index.ts:107-108 | `filter` with narrowing distributes over concatenation (order is kept) |
| Sequences.SelectDisjointSize | src/index.ts:107-108 | two filters that never accept the same element select no more than the input holds |

## Left out

- Template rendering: the `render(TEMPLATE, …)` call (src/index.ts:110-113) and the template text (src/index.ts:24-52) depend on the Mustache engine's section semantics. `ConvertDocument` stops at the `{models, enums}` record.
- src/bin.ts: command-line parsing, path resolution, file reading, GraphQL text parsing and console output are all I/O over external libraries.
- tests/index.test.ts: a snapshot comparison of rendered output, with no statable assertion beyond the stored snapshot.
- The GraphQL parser and the real `extractType` are foreign code. The AST datatypes and `TypeShape.ExtractType` stand in for them.
- Directive argument values other than string-like literals are not modelled. A boolean literal would be a JavaScript boolean, and a list, object, variable or null literal has no `.value`, so it gives `undefined`. Every value here is a string.
- JavaScript object details are not modelled: property insertion order, and prototype properties reachable by lookup. The model's maps are unordered, and a key is present only if a directive or argument wrote it.
- Running the conversion twice gives the same output. This holds trivially, because every member is a pure function. It is not stated as a lemma.
