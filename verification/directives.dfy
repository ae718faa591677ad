/** Reading directives off a definition: the presence test and the reduction of
    a field's directives into a map from directive name to argument map. */
module Directives {
  import opened Options
  import opened GraphQL

  /** The element at `i` is the last one in `xs` with its key. */
  predicate LastWithKey<T, K(==)>(xs: seq<T>, key: T -> K, i: int)
    requires 0 <= i < |xs|
  {
    forall j :: i < j < |xs| ==> key(xs[j]) != key(xs[i])
  }

  /** The keys of the elements of `xs`. */
  function KeysOf<T, K>(xs: seq<T>, key: T -> K): set<K>
  {
    set i | 0 <= i < |xs| :: key(xs[i])
  }

  /** Folds `xs` from the left into a map, each element writing `value(x)` at
      `key(x)` over whatever an earlier element wrote there (an object spread
      `{...acc, [key]: value}` inside a `reduce` starting from `{}`). The keys
      are exactly the elements' keys, and the last element's value is kept. */
  function Collect<T, K(==), V>(xs: seq<T>, key: T -> K, value: T -> V): (m: map<K, V>)
    ensures m.Keys == KeysOf(xs, key)
    ensures |xs| > 0 ==> m[key(xs[|xs| - 1])] == value(xs[|xs| - 1])
    decreases |xs|
  {
    if |xs| == 0 then map[]
    else
      var last := xs[|xs| - 1];
      Collect(xs[..|xs| - 1], key, value)[key(last) := value(last)]
  }

  /** Each key of the folded map holds the value of the last element with that key. */
  lemma {:induction false} CollectLastWins<T, K, V>(xs: seq<T>, key: T -> K, value: T -> V, i: int)
    requires 0 <= i < |xs| && LastWithKey(xs, key, i)
    ensures key(xs[i]) in Collect(xs, key, value)
    ensures Collect(xs, key, value)[key(xs[i])] == value(xs[i])
    decreases |xs|
  {
    if i < |xs| - 1 {
      var p := xs[..|xs| - 1];
      assert LastWithKey(p, key, i) by {
        forall j | i < j < |p| ensures key(p[j]) != key(p[i]) {
          assert p[j] == xs[j];
        }
      }
      CollectLastWins(p, key, value, i);
      assert key(xs[|xs| - 1]) != key(xs[i]);
    }
  }

  function ArgumentName(a: Argument): string { a.name }

  function ArgumentValue(a: Argument): string { a.value }

  function DirectiveName(d: Directive): string { d.name }

  /** The names of the directives in `ds`. */
  function DirectiveNames(ds: seq<Directive>): set<string>
  {
    KeysOf(ds, DirectiveName)
  }

  /** What a directive contributes to the directive map: its argument map, or
      `Null` when its argument list is undefined (`args || null`). An empty
      argument list gives an empty map, which is not `Null`. */
  datatype ArgumentValues = Null | Values(entries: map<string, string>)

  /** A directive's arguments as a map from argument name to value; a repeated
      argument name keeps its last value. */
  function ArgumentMap(args: seq<Argument>): (m: map<string, string>)
    ensures m.Keys == KeysOf(args, ArgumentName)
    ensures forall i :: 0 <= i < |args| && LastWithKey(args, ArgumentName, i) ==> m[args[i].name] == args[i].value
  {
    forall i | 0 <= i < |args| && LastWithKey(args, ArgumentName, i) {
      CollectLastWins(args, ArgumentName, ArgumentValue, i);
    }
    Collect(args, ArgumentName, ArgumentValue)
  }

  function DirectiveArguments(d: Directive): (r: ArgumentValues)
    ensures r.Null? <==> d.arguments.None?
    ensures d.arguments == Some([]) ==> r == Values(map[])
    ensures r.Values? ==> r.entries.Keys == KeysOf(d.arguments.value, ArgumentName)
  {
    match d.arguments
    case None => Null
    case Some(args) => Values(ArgumentMap(args))
  }

  /** The directives of a field reduced into a map from directive name to
      argument values, or `None` when the field's directive list is undefined.
      The keys are exactly the directive names on the field; a repeated
      directive name keeps its last occurrence. */
  function GetFieldDirectives(f: FieldDefinition): (r: Option<map<string, ArgumentValues>>)
    ensures r.None? <==> f.directives.None?
    ensures r.Some? ==> r.value.Keys == DirectiveNames(f.directives.value)
    ensures r.Some? ==>
      forall i :: 0 <= i < |f.directives.value| && LastWithKey(f.directives.value, DirectiveName, i) ==>
        r.value[f.directives.value[i].name] == DirectiveArguments(f.directives.value[i])
  {
    match f.directives
    case None => None
    case Some(ds) =>
      forall i | 0 <= i < |ds| && LastWithKey(ds, DirectiveName, i) {
        CollectLastWins(ds, DirectiveName, DirectiveArguments, i);
      }
      Some(Collect(ds, DirectiveName, DirectiveArguments))
  }

  /** Whether some directive in `ds` is named `name` (`Array.prototype.some`,
      scanning from the front). */
  function AnyNamed(ds: seq<Directive>, name: string): (r: bool)
    ensures r <==> name in DirectiveNames(ds)
    decreases |ds|
  {
    if |ds| == 0 then false
    else ds[0].name == name || AnyNamed(ds[1..], name)
  }

  /** A directive named `name` is in the (possibly undefined) list `ds`. */
  predicate Carries(ds: Option<seq<Directive>>, name: string)
  {
    ds.Some? && name in DirectiveNames(ds.value)
  }

  /** The directive at `i` of `ds` is the last one named `name`. */
  ghost predicate LastNamed(ds: Option<seq<Directive>>, name: string, i: int)
  {
    ds.Some? && 0 <= i < |ds.value| && ds.value[i].name == name && LastWithKey(ds.value, DirectiveName, i)
  }

  /** Whether a directive named `name` is present; an undefined directive list
      holds none. */
  function IncludeDirective(ds: Option<seq<Directive>>, name: string): (r: bool)
    ensures r <==> Carries(ds, name)
  {
    match ds
    case None => false
    case Some(s) => AnyNamed(s, name)
  }

  /** The presence test and the directive map agree: a name is a key of the
      field's directive map exactly when a directive of that name is on the field. */
  lemma IncludeAgreesWithDirectiveMap(f: FieldDefinition, name: string)
    ensures IncludeDirective(f.directives, name) <==>
      GetFieldDirectives(f).Some? && name in GetFieldDirectives(f).value
  {
  }

  /** Of two directives with the same name, the later one's arguments are kept. */
  lemma RepeatedDirectiveLastWins(name: string, first: Option<seq<Argument>>, second: Option<seq<Argument>>, t: TypeNode)
    ensures var f := FieldDefinition(name, t, Some([Directive(name, first), Directive(name, second)]));
      GetFieldDirectives(f) == Some(map[name := DirectiveArguments(Directive(name, second))])
  {
    var ds := [Directive(name, first), Directive(name, second)];
    var m := GetFieldDirectives(FieldDefinition(name, t, Some(ds))).value;
    assert LastWithKey(ds, DirectiveName, 1);
    assert m.Keys == {name} by {
      assert DirectiveNames(ds) == {ds[0].name, ds[1].name};
    }
    assert m[ds[1].name] == DirectiveArguments(ds[1]);
    assert m == map[name := DirectiveArguments(ds[1])];
  }
}
