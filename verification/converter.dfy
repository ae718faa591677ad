/** The conversion from a Prisma 1 datamodel document to the plain records that
    the Prisma 2 schema text is rendered from. */
module Converter {
  import opened Options
  import opened GraphQL
  import opened TypeShape
  import opened Directives
  import opened Sequences

  /** A converted field. `default` and `relation` are the arguments of the
      field's `@default` and `@relation` directives, passed through unchecked:
      `None` when the directive is absent, `Some(Null)` when it has an
      undefined argument list. */
  datatype Field = Field(
    name: string,
    typeName: string,
    optional: bool,
    list: bool,
    id: bool,
    unique: bool,
    scalarList: bool,
    createdAt: bool,
    updatedAt: bool,
    default: Option<ArgumentValues>,
    relation: Option<ArgumentValues>)

  datatype Model = Model(name: string, fields: seq<Field>, isRelationTable: bool)

  datatype EnumMember = EnumMember(name: string)

  datatype Enum = Enum(name: string, members: seq<EnumMember>)

  /** What the schema template is filled from. */
  datatype DataModel = DataModel(models: seq<Model>, enums: seq<Enum>)

  /** Renames the Prisma 1 scalar `ID` to `String`; every other name is kept. */
  function ConvertType(typeName: string): (r: string)
    ensures r != "ID"
    ensures typeName != "ID" ==> r == typeName
    ensures typeName == "ID" ==> r == "String"
  {
    if typeName == "ID" then "String" else typeName
  }

  /** Renaming twice is renaming once. */
  lemma ConvertTypeIdempotent(typeName: string)
    ensures ConvertType(ConvertType(typeName)) == ConvertType(typeName)
  {
  }

  /** Optional property access on the directive map (`directives?.[name]`):
      absent when the map is undefined or lacks the key, else the entry. */
  function LookupDirective(m: Option<map<string, ArgumentValues>>, name: string): (r: Option<ArgumentValues>)
    ensures r.Some? <==> m.Some? && name in m.value
    ensures r.Some? ==> r.value == m.value[name]
  {
    match m
    case None => None
    case Some(entries) => if name in entries then Some(entries[name]) else None
  }

  /** The field's value of a pass-through directive: present exactly when the
      directive is on the field, and then the arguments of its last occurrence. */
  ghost predicate PassedThrough(f: FieldDefinition, name: string, v: Option<ArgumentValues>)
  {
    && (v.Some? <==> Carries(f.directives, name))
    && forall i :: LastNamed(f.directives, name, i) ==> v == Some(DirectiveArguments(f.directives.value[i]))
  }

  /** A field's record. Its type name is the renamed name of the named type
      at the core of its type reference. */
  function ConvertField(f: FieldDefinition): (r: Field)
    ensures r.name == f.name
    ensures forall n :: Wrap(Modifiers(f.fieldType), n) == f.fieldType ==> r.typeName == ConvertType(n)
    ensures !(r.optional && r.list)
    ensures r.optional <==> f.fieldType.NamedType?
    ensures r.list <==> StripNonNull(f.fieldType).ListType?
    ensures r.id <==> Carries(f.directives, "id")
    ensures r.unique <==> Carries(f.directives, "unique")
    ensures r.scalarList <==> Carries(f.directives, "scalarList")
    ensures r.createdAt <==> Carries(f.directives, "createdAt")
    ensures r.updatedAt <==> Carries(f.directives, "updatedAt")
    ensures PassedThrough(f, "default", r.default)
    ensures PassedThrough(f, "relation", r.relation)
  {
    var directives := GetFieldDirectives(f);
    assert forall n :: Wrap(Modifiers(f.fieldType), n) == f.fieldType ==> n == ExtractType(f.fieldType) by {
      forall n | Wrap(Modifiers(f.fieldType), n) == f.fieldType
        ensures n == ExtractType(f.fieldType)
      {
        ExtractTypeOfWrap(Modifiers(f.fieldType), n);
      }
    }
    Field(
      f.name,
      ConvertType(ExtractType(f.fieldType)),
      !IsNonNullTypeNode(f.fieldType) && !IsListTypeNode(f.fieldType),
      IsListTypeNode(f.fieldType),
      IncludeDirective(f.directives, "id"),
      IncludeDirective(f.directives, "unique"),
      IncludeDirective(f.directives, "scalarList"),
      IncludeDirective(f.directives, "createdAt"),
      IncludeDirective(f.directives, "updatedAt"),
      LookupDirective(directives, "default"),
      LookupDirective(directives, "relation"))
  }

  function ConvertModel(d: ObjectTypeDefinition): (r: Model)
    ensures r.name == d.name
    ensures r.isRelationTable <==> Carries(d.directives, "relationTable")
    ensures d.fields.None? ==> r.fields == []
    ensures d.fields.Some? ==> |r.fields| == |d.fields.value|
    ensures d.fields.Some? ==> forall i :: 0 <= i < |r.fields| ==> r.fields[i] == ConvertField(d.fields.value[i])
  {
    Model(
      d.name,
      Map(d.fields.GetOr([]), ConvertField),
      IncludeDirective(d.directives, "relationTable"))
  }

  function ConvertEnumValue(v: EnumValueDefinition): EnumMember
  {
    EnumMember(v.name)
  }

  function ConvertEnum(d: EnumTypeDefinition): (r: Enum)
    ensures r.name == d.name
    ensures d.values.None? ==> r.members == []
    ensures d.values.Some? ==> |r.members| == |d.values.value|
    ensures d.values.Some? ==> forall i :: 0 <= i < |r.members| ==> r.members[i].name == d.values.value[i].name
  {
    Enum(d.name, Map(d.values.GetOr([]), ConvertEnumValue))
  }

  /** The type guard `isModel`: the kind tag names an object type definition. */
  function IsModel(d: Definition): (r: bool)
    ensures r <==> d.ObjectDef?
  {
    Kind(d) == "ObjectTypeDefinition"
  }

  /** The type guard `isEnum`: the kind tag names an enum type definition. */
  function IsEnum(d: Definition): (r: bool)
    ensures r <==> d.EnumDef?
  {
    Kind(d) == "EnumTypeDefinition"
  }

  /** The type guard `isModel` as a selector. */
  function AsModel(d: Definition): Option<ObjectTypeDefinition>
  {
    if IsModel(d) then Some(d.objectType) else None
  }

  /** The type guard `isEnum` as a selector. */
  function AsEnum(d: Definition): Option<EnumTypeDefinition>
  {
    if IsEnum(d) then Some(d.enumType) else None
  }

  /** `definitions.filter(isModel)`: the object type definitions, in order. */
  function ObjectDefinitions(defs: seq<Definition>): (r: seq<ObjectTypeDefinition>)
    ensures forall o :: o in r <==> ObjectDef(o) in defs
  {
    var r := Select(defs, AsModel);
    SelectMembers(defs, AsModel);
    assert forall o :: o in r ==> ObjectDef(o) in defs by {
      forall o | o in r ensures ObjectDef(o) in defs {
        var k :| 0 <= k < |r| && r[k] == o;
        var i :| 0 <= i < |defs| && AsModel(defs[i]) == Some(r[k]);
      }
    }
    assert forall o :: ObjectDef(o) in defs ==> o in r by {
      forall o | ObjectDef(o) in defs ensures o in r {
        var i :| 0 <= i < |defs| && defs[i] == ObjectDef(o);
        assert AsModel(defs[i]) == Some(o);
      }
    }
    r
  }

  /** `definitions.filter(isEnum)`: the enum type definitions, in order. */
  function EnumDefinitions(defs: seq<Definition>): (r: seq<EnumTypeDefinition>)
    ensures forall e :: e in r <==> EnumDef(e) in defs
  {
    var r := Select(defs, AsEnum);
    SelectMembers(defs, AsEnum);
    assert forall e :: e in r ==> EnumDef(e) in defs by {
      forall e | e in r ensures EnumDef(e) in defs {
        var k :| 0 <= k < |r| && r[k] == e;
        var i :| 0 <= i < |defs| && AsEnum(defs[i]) == Some(r[k]);
      }
    }
    assert forall e :: EnumDef(e) in defs ==> e in r by {
      forall e | EnumDef(e) in defs ensures e in r {
        var i :| 0 <= i < |defs| && defs[i] == EnumDef(e);
        assert AsEnum(defs[i]) == Some(e);
      }
    }
    r
  }

  /** The records built from a document: one model per object type definition
      and one enum per enum type definition, each in document order. */
  function ConvertDocument(doc: Document): (r: DataModel)
    ensures |r.models| == |ObjectDefinitions(doc.definitions)|
    ensures forall i :: 0 <= i < |r.models| ==> r.models[i] == ConvertModel(ObjectDefinitions(doc.definitions)[i])
    ensures |r.enums| == |EnumDefinitions(doc.definitions)|
    ensures forall i :: 0 <= i < |r.enums| ==> r.enums[i] == ConvertEnum(EnumDefinitions(doc.definitions)[i])
  {
    DataModel(
      Map(ObjectDefinitions(doc.definitions), ConvertModel),
      Map(EnumDefinitions(doc.definitions), ConvertEnum))
  }

  /** `filter(isModel)` distributes over concatenation: the object type
      definitions keep their document order and multiplicity. */
  lemma ObjectDefinitionsAppend(a: seq<Definition>, b: seq<Definition>)
    ensures ObjectDefinitions(a + b) == ObjectDefinitions(a) + ObjectDefinitions(b)
  {
    SelectAppend(a, b, AsModel);
  }

  /** `filter(isEnum)` distributes over concatenation: the enum type
      definitions keep their document order and multiplicity. */
  lemma EnumDefinitionsAppend(a: seq<Definition>, b: seq<Definition>)
    ensures EnumDefinitions(a + b) == EnumDefinitions(a) + EnumDefinitions(b)
  {
    SelectAppend(a, b, AsEnum);
  }

  /** Splitting a model's field list splits its converted fields at the same point. */
  lemma ConvertModelFieldsAppend(d: ObjectTypeDefinition, a: seq<FieldDefinition>, b: seq<FieldDefinition>)
    ensures ConvertModel(d.(fields := Some(a + b))).fields
         == ConvertModel(d.(fields := Some(a))).fields + ConvertModel(d.(fields := Some(b))).fields
  {
    MapAppend(a, b, ConvertField);
  }

  /** Splitting an enum's value list splits its members at the same point. */
  lemma ConvertEnumValuesAppend(d: EnumTypeDefinition, a: seq<EnumValueDefinition>, b: seq<EnumValueDefinition>)
    ensures ConvertEnum(d.(values := Some(a + b))).members
         == ConvertEnum(d.(values := Some(a))).members + ConvertEnum(d.(values := Some(b))).members
  {
    MapAppend(a, b, ConvertEnumValue);
  }

  /** Every definition yields at most one record. */
  lemma ConvertDocumentSize(doc: Document)
    ensures |ConvertDocument(doc).models| + |ConvertDocument(doc).enums| <= |doc.definitions|
  {
    SelectDisjointSize(doc.definitions, AsModel, AsEnum);
  }

  /** Converting a concatenation of definition lists concatenates the results:
      the relative order of models and of enums is the document order. */
  lemma ConvertDocumentAppend(a: seq<Definition>, b: seq<Definition>)
    ensures var ra, rb := ConvertDocument(Document(a)), ConvertDocument(Document(b));
      ConvertDocument(Document(a + b)) == DataModel(ra.models + rb.models, ra.enums + rb.enums)
  {
    var oa, ob := ObjectDefinitions(a), ObjectDefinitions(b);
    var ea, eb := EnumDefinitions(a), EnumDefinitions(b);
    ObjectDefinitionsAppend(a, b);
    EnumDefinitionsAppend(a, b);
    MapAppend(oa, ob, ConvertModel);
    MapAppend(ea, eb, ConvertEnum);
  }

  /** A single definition becomes one model, one enum, or nothing. */
  lemma ConvertSingleDefinition(d: Definition)
    ensures ConvertDocument(Document([d])) ==
      match d
      case ObjectDef(o) => DataModel([ConvertModel(o)], [])
      case EnumDef(e) => DataModel([], [ConvertEnum(e)])
      case OtherDef(_) => DataModel([], [])
  {
    SelectSingle(d, AsModel);
    SelectSingle(d, AsEnum);
  }

  /** A definition of any other kind is dropped wherever it stands. */
  lemma OtherDefinitionDropped(a: seq<Definition>, kind: OtherKind, b: seq<Definition>)
    ensures ConvertDocument(Document(a + [OtherDef(kind)] + b)) == ConvertDocument(Document(a + b))
  {
    var other := [OtherDef(kind)];
    ConvertDocumentAppend(a + other, b);
    ConvertDocumentAppend(a, other);
    ConvertSingleDefinition(OtherDef(kind));
    ConvertDocumentAppend(a, b);
    var ra, ro, rb := ConvertDocument(Document(a)), ConvertDocument(Document(other)), ConvertDocument(Document(b));
    assert ro.models == [] && ro.enums == [];
    assert ra.models + ro.models == ra.models;
    assert ra.enums + ro.enums == ra.enums;
  }

  /** No field is both optional and a list; a field is optional exactly when
      its type is a bare named type. */
  lemma FieldModifiersExclusive(d: ObjectTypeDefinition)
    ensures forall f :: f in ConvertModel(d).fields ==> !(f.optional && f.list)
  {
  }

  /** `type User implements Node @relationTable { id: ID! @id, email: String @unique }` */
  lemma UserScenario()
    ensures var user := ObjectTypeDefinition(
      "User",
      Some([
        FieldDefinition("id", NonNullType(NamedType("ID")), Some([Directive("id", Some([]))])),
        FieldDefinition("email", NamedType("String"), Some([Directive("unique", Some([]))]))]),
      Some([Directive("relationTable", Some([]))]));
      ConvertModel(user) == Model(
        "User",
        [ Field("id", "String", false, false, true, false, false, false, false, None, None),
          Field("email", "String", true, false, false, true, false, false, false, None, None)],
        true)
  {
  }

  /** `enum Role { ADMIN USER }` */
  lemma RoleScenario()
    ensures ConvertEnum(EnumTypeDefinition("Role", Some([EnumValueDefinition("ADMIN"), EnumValueDefinition("USER")])))
      == Enum("Role", [EnumMember("ADMIN"), EnumMember("USER")])
  {
  }

  /** A field without directives has every flag off and no pass-through values. */
  lemma UndecoratedField(name: string, t: TypeNode)
    ensures var r := ConvertField(FieldDefinition(name, t, None));
      !r.id && !r.unique && !r.scalarList && !r.createdAt && !r.updatedAt
      && r.default.None? && r.relation.None?
  {
  }
}
