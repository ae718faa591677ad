/** Shape analysis of a field's type reference: is it a list, is it non-null,
    and which named type sits at its core. */
module TypeShape {
  import opened GraphQL

  /** One wrapper around a named type. */
  datatype Modifier = List | NonNull

  /** Wraps `name` in the modifiers `ms`, outermost first. */
  function Wrap(ms: seq<Modifier>, name: string): TypeNode
    decreases |ms|
  {
    if |ms| == 0 then NamedType(name)
    else match ms[0]
      case List => ListType(Wrap(ms[1..], name))
      case NonNull => NonNullType(Wrap(ms[1..], name))
  }

  /** The wrappers of `t`, outermost first. */
  function Modifiers(t: TypeNode): seq<Modifier>
  {
    match t
    case NamedType(_) => []
    case ListType(e) => [List] + Modifiers(e)
    case NonNullType(n) => [NonNull] + Modifiers(n)
  }

  /** `ms` is `rest` after a prefix made only of `NonNull` modifiers. */
  ghost predicate NonNullPrefixOf(ms: seq<Modifier>, rest: seq<Modifier>)
  {
    exists k :: 0 <= k <= |ms| && ms[k..] == rest && forall j :: 0 <= j < k ==> ms[j] == NonNull
  }

  /** One more outer `NonNull` keeps a `NonNull` prefix a `NonNull` prefix. */
  lemma NonNullPrefixCons(ns: seq<Modifier>, rest: seq<Modifier>)
    requires NonNullPrefixOf(ns, rest)
    ensures NonNullPrefixOf([NonNull] + ns, rest)
  {
    var ms := [NonNull] + ns;
    var k :| 0 <= k <= |ns| && ns[k..] == rest && forall j :: 0 <= j < k ==> ns[j] == NonNull;
    assert ms[k + 1..] == rest;
    assert forall j :: 0 <= j < k + 1 ==> ms[j] == NonNull;
  }

  /** `t` with every outer non-null marker removed: its modifiers are those of
      `t` after a prefix made only of `NonNull`. */
  function StripNonNull(t: TypeNode): (u: TypeNode)
    ensures !u.NonNullType?
    ensures ExtractType(u) == ExtractType(t)
    ensures NonNullPrefixOf(Modifiers(t), Modifiers(u))
  {
    match t
    case NonNullType(n) =>
      NonNullPrefixCons(Modifiers(n), Modifiers(StripNonNull(n)));
      StripNonNull(n)
    case _ =>
      assert Modifiers(t)[0..] == Modifiers(t);
      t
  }

  /** The name of the innermost named type. The library function the converter
      calls for this is not part of this model; this is the unwrap it is
      assumed to perform. Every type is that name under its modifiers. */
  function ExtractType(t: TypeNode): (name: string)
    ensures Wrap(Modifiers(t), name) == t
  {
    match t
    case NamedType(n) => n
    case ListType(e) => ExtractType(e)
    case NonNullType(n) => ExtractType(n)
  }

  /** Unwrapping undoes wrapping: the named type and the modifiers come back. */
  lemma {:induction false} ExtractTypeOfWrap(ms: seq<Modifier>, name: string)
    ensures ExtractType(Wrap(ms, name)) == name
    ensures Modifiers(Wrap(ms, name)) == ms
    decreases |ms|
  {
    if |ms| > 0 {
      ExtractTypeOfWrap(ms[1..], name);
      assert [ms[0]] + ms[1..] == ms;
    }
  }

  /** A type is a list when it is a list once its outer non-null markers are
      removed: the check looks through `NonNullType` but not through `ListType`. */
  function IsListTypeNode(t: TypeNode): (r: bool)
    ensures r <==> StripNonNull(t).ListType?
  {
    match t
    case ListType(_) => true
    case NonNullType(n) => IsListTypeNode(n)
    case NamedType(_) => false
  }

  /** A type is non-null when its outermost node is a `NonNullType`; nothing
      beneath the outermost node is inspected. */
  function IsNonNullTypeNode(t: TypeNode): (r: bool)
    ensures r <==> |Modifiers(t)| > 0 && Modifiers(t)[0] == NonNull
  {
    match t
    case ListType(_) => false
    case NonNullType(_) => true
    case NamedType(_) => false
  }

  /** The first modifier that is not `NonNull` exists and is `List`. */
  ghost predicate ListUnderNonNulls(ms: seq<Modifier>)
  {
    exists k :: 0 <= k < |ms| && ms[k] == List && forall j :: 0 <= j < k ==> ms[j] == NonNull
  }

  /** In terms of modifiers: a type is a list exactly when its first modifier
      that is not `NonNull` exists and is `List`. */
  lemma {:induction false} IsListByModifiers(t: TypeNode)
    ensures IsListTypeNode(t) <==> ListUnderNonNulls(Modifiers(t))
  {
    var ms := Modifiers(t);
    match t
    case NamedType(_) =>
    case ListType(e) =>
      assert ms[0] == List;
    case NonNullType(n) =>
      IsListByModifiers(n);
      var ns := Modifiers(n);
      assert ms == [NonNull] + ns;
      if IsListTypeNode(t) {
        var k :| 0 <= k < |ns| && ns[k] == List && forall j :: 0 <= j < k ==> ns[j] == NonNull;
        assert ms[k + 1] == List;
        assert forall j :: 0 <= j < k + 1 ==> ms[j] == NonNull;
      }
  }

  /** The list check is deep through non-null markers; the non-null check is
      shallow: a list of non-null elements is not itself non-null. */
  lemma DeepListShallowNonNull(x: TypeNode)
    ensures IsListTypeNode(NonNullType(x)) == IsListTypeNode(x)
    ensures IsNonNullTypeNode(NonNullType(x))
    ensures !IsNonNullTypeNode(ListType(NonNullType(x)))
    ensures IsListTypeNode(NonNullType(ListType(x)))
  {
  }

  /** The three cases the converter relies on for a named type `T`. */
  lemma ListShapes(name: string)
    ensures IsListTypeNode(ListType(NamedType(name)))
    ensures IsListTypeNode(NonNullType(ListType(NamedType(name))))
    ensures !IsListTypeNode(NamedType(name))
  {
  }
}
