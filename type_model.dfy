/**
 * An in-memory type universe standing in for the host platform's reflection
 * facility. A type is a named definition applied to ordered generic arguments,
 * or an open generic parameter. Base types, implemented interfaces and
 * parameter constraints come from declarations written over the definition's
 * own parameters; native assignability is an uninterpreted relation.
 */
module TypeModel {
  import opened Wrappers

  /** A type descriptor. `Con(n, [])` is a non-generic type; `Con(n, args)` with
      non-empty `args` is a generic construction (open or closed); `Param(n, i)` is
      the i-th generic parameter of definition `n`. */
  datatype Ty =
    | Con(name: string, args: seq<Ty>)
    | Param(owner: string, index: nat)

  /** What the universe declares about a named definition. `baseType`, `interfaces`
      and `constraints` mention the definition's parameters as `Param(name, i)`;
      `interfaces` is the full, ordered list the reflection facility would report.
      `level` is the definition's depth in the class hierarchy. */
  datatype Decl = Decl(
    isInterface: bool,
    level: nat,
    baseType: Option<Ty>,
    interfaces: seq<Ty>,
    constraints: seq<seq<Ty>>)

  /** `assignableFrom(target, source)` is the host's native assignability, taken as given. */
  datatype Universe = Universe(decls: map<string, Decl>, assignableFrom: (Ty, Ty) -> bool)

  /** The base type of definition `n`, if any, is a declared definition one level down. */
  ghost predicate BaseBelow(u: Universe, n: string)
    requires n in u.decls
  {
    var d := u.decls[n];
    d.baseType.Some? ==>
      d.baseType.value.Con? && d.baseType.value.name in u.decls &&
      u.decls[d.baseType.value.name].level < d.level
  }

  /** Class hierarchies are acyclic, as the host platform guarantees. */
  ghost predicate WellFormed(u: Universe) {
    forall n | n in u.decls :: BaseBelow(u, n)
  }

  /** Replaces the parameters of definition `owner` by `actuals`. */
  function Subst(t: Ty, owner: string, actuals: seq<Ty>): (r: Ty)
    ensures t.Con? ==> r.Con? && r.name == t.name && |r.args| == |t.args|
  {
    match t
    case Param(o, i) => if o == owner && i < |actuals| then actuals[i] else t
    case Con(n, ts) => Con(n, seq(|ts|, k requires 0 <= k < |ts| => Subst(ts[k], owner, actuals)))
  }

  /** The parameters of a definition of arity `k`, in order. */
  function Params(n: string, k: nat): (r: seq<Ty>)
    ensures |r| == k && forall i | 0 <= i < k :: r[i] == Param(n, i)
  {
    seq(k, (i: int) requires 0 <= i < k => Param(n, i))
  }

  /** `IsGenericType`: a construction with at least one generic argument. */
  predicate IsGenericType(t: Ty) {
    t.Con? && |t.args| > 0
  }

  /** `IsGenericParameter`. */
  predicate IsGenericParameter(t: Ty) {
    t.Param?
  }

  /** `GetGenericArguments`: empty for anything that is not a construction. */
  function GenericArguments(t: Ty): seq<Ty> {
    if t.Con? then t.args else []
  }

  /** `GetGenericTypeDefinition` of a generic type; absent (null) for any other type. The
      ensures clauses spell out the definition; `DefinitionOfDefinition` and
      `ArgumentsRoundTrip` state what it promises. */
  function Definition(t: Ty): (r: Option<Ty>)
    ensures r.Some? <==> IsGenericType(t)
    ensures r.Some? ==> r.value == Con(t.name, Params(t.name, |t.args|))
  {
    if IsGenericType(t) then Some(Con(t.name, Params(t.name, |t.args|))) else None
  }

  /** `MakeGenericType`: applies a definition to arguments. */
  function MakeGenericType(def: Ty, args: seq<Ty>): (r: Ty)
    requires def.Con?
    ensures r.Con? && r.name == def.name && r.args == args
  {
    Con(def.name, args)
  }

  /** `ContainsGenericParameters`: some open parameter occurs in the type. */
  predicate ContainsGenericParameters(t: Ty) {
    match t
    case Param(_, _) => true
    case Con(_, ts) => exists k | 0 <= k < |ts| :: ContainsGenericParameters(ts[k])
  }

  /** `IsInterface`. */
  predicate IsInterface(u: Universe, t: Ty) {
    t.Con? && t.name in u.decls && u.decls[t.name].isInterface
  }

  /** The hierarchy level of a type's definition (0 for parameters and undeclared names). */
  function Level(u: Universe, t: Ty): nat {
    if t.Con? && t.name in u.decls then u.decls[t.name].level else 0
  }

  /** `BaseType`: the declared base with this construction's arguments substituted. */
  function BaseType(u: Universe, t: Ty): (r: Option<Ty>)
    requires WellFormed(u)
    ensures r.Some? ==> Level(u, r.value) < Level(u, t)
  {
    if t.Con? && t.name in u.decls && u.decls[t.name].baseType.Some? then
      assert BaseBelow(u, t.name);
      Some(Subst(u.decls[t.name].baseType.value, t.name, t.args))
    else None
  }

  /** `GetInterfaces`: the declared interfaces with this construction's arguments substituted. */
  function Interfaces(u: Universe, t: Ty): (r: seq<Ty>)
    ensures t.Con? && t.name in u.decls ==> |r| == |u.decls[t.name].interfaces|
    ensures !(t.Con? && t.name in u.decls) ==> r == []
  {
    if t.Con? && t.name in u.decls then
      var decl := u.decls[t.name].interfaces;
      seq(|decl|, k requires 0 <= k < |decl| => Subst(decl[k], t.name, t.args))
    else []
  }

  /** `GetGenericParameterConstraints` of an open parameter; empty for anything else. */
  function Constraints(u: Universe, t: Ty): seq<Ty> {
    if t.Param? && t.owner in u.decls && t.index < |u.decls[t.owner].constraints| then
      u.decls[t.owner].constraints[t.index]
    else []
  }

  /** The type itself followed by its successive base types. */
  function BaseChain(u: Universe, t: Ty): (r: seq<Ty>)
    requires WellFormed(u)
    ensures |r| > 0 && r[0] == t
    decreases Level(u, t)
  {
    match BaseType(u, t)
    case None => [t]
    case Some(b) => [t] + BaseChain(u, b)
  }

  /** The generic definition of an open definition is itself. */
  lemma DefinitionOfDefinition(t: Ty)
    requires IsGenericType(t)
    ensures Definition(Definition(t).value) == Definition(t)
  {
  }

  /** `MakeGenericType` on a type's own definition: the construction is generic, has that
      definition and exactly the given arguments, and with the type's own arguments it gives
      the type back. */
  lemma ArgumentsRoundTrip(t: Ty, args: seq<Ty>)
    requires IsGenericType(t) && |args| == |t.args|
    ensures var m := MakeGenericType(Definition(t).value, args);
      IsGenericType(m) && Definition(m) == Definition(t) && GenericArguments(m) == args
    ensures MakeGenericType(Definition(t).value, GenericArguments(t)) == t
  {
  }

  /** A generic parameter is neither a generic type nor has arguments; only a parameter has
      constraints. */
  lemma ParameterIsNotGeneric(u: Universe, t: Ty)
    ensures IsGenericParameter(t) ==> !IsGenericType(t) && GenericArguments(t) == [] && Definition(t).None?
    ensures !IsGenericParameter(t) ==> Constraints(u, t) == []
  {
  }

  /** The constraints of the `i`-th argument of a definition are the constraints declared for
      its `i`-th parameter. */
  lemma ConstraintsOfDefinition(u: Universe, t: Ty, i: nat)
    requires IsGenericType(t) && t.name in u.decls && i < |t.args| && i < |u.decls[t.name].constraints|
    ensures IsGenericParameter(Definition(t).value.args[i])
    ensures Constraints(u, Definition(t).value.args[i]) == u.decls[t.name].constraints[i]
  {
  }

  /** A definition is open, and a construction is open exactly when one of its arguments is. */
  lemma OpenConstructions(t: Ty, def: Ty, args: seq<Ty>)
    requires IsGenericType(t) && def.Con?
    ensures ContainsGenericParameters(Definition(t).value)
    ensures ContainsGenericParameters(MakeGenericType(def, args)) <==>
      exists k | 0 <= k < |args| :: ContainsGenericParameters(args[k])
  {
    var d := Definition(t).value;
    assert d.args[0] == Param(t.name, 0);
    assert ContainsGenericParameters(d.args[0]);
  }

  /** Being an interface is a property of the definition, not of the arguments. */
  lemma InterfaceByDefinition(u: Universe, t: Ty)
    ensures IsGenericType(t) ==> (IsInterface(u, t) <==> IsInterface(u, Definition(t).value))
    ensures IsGenericParameter(t) ==> !IsInterface(u, t)
  {
  }
}
