/**
 * TypeExtensions.cs as an object: the substitution cache is a field that the
 * checker's methods update in place, the base-chain walk and the loops over
 * interfaces, arguments and constraints are loops, and `substitutedArgs` is an
 * array filled position by position. Each method is proved to compute exactly
 * what the functions of module Substitution describe, and to keep the cache
 * consistent with the cacheless checker of module Reference.
 */
module TypeExtensions {
  import opened Wrappers
  import opened TypeModel
  import opened Substitution
  import opened Reference
  import opened CacheSoundness

  class SubstitutionChecker {
    /** The reflection facility the checker queries. Every method but `ClearCache` keeps
        the cache `Consistent`: each entry is the answer the cacheless checker gives. */
    const universe: Universe
    /** `_runtimeSubstituteTypesCache`. */
    var cache: Cache

    constructor (universe: Universe)
      requires WellFormed(universe)
      ensures this.universe == universe && cache == map[] && Consistent(universe, cache)
    {
      this.universe := universe;
      cache := map[];
    }

    /** `ClearCache`: the only operation that removes entries. */
    method ClearCache()
      requires WellFormed(universe)
      modifies this
      ensures cache == map[] && Consistent(universe, cache)
    {
      cache := map[];
    }

    /** `IsSubtypeOf(type, expectedType, out runtimeType)`. */
    method IsSubtypeOf(sourceType: Option<Ty>, expectedType: Option<Ty>, fuel: nat) returns (r: Outcome)
      requires WellFormed(universe) && Consistent(universe, cache)
      modifies this
      ensures (r, cache) == Check(universe, old(cache), sourceType, expectedType, fuel)
      ensures Consistent(universe, cache)
      ensures Extends(cache, old(cache))
      ensures r.Done? && sourceType.Some? && expectedType.Some? && sourceType != expectedType ==>
        (sourceType.value, expectedType.value) in cache
      decreases fuel, 4
    {
      CheckAgrees(universe, cache, sourceType, expectedType, fuel);
      if sourceType.None? || expectedType.None? { return Done(false, None); }
      var s, t := sourceType.value, expectedType.value;
      if s == t { return Done(true, Some(s)); }
      var key := (s, t);
      if key in cache {
        var cached := cache[key];
        return Done(cached.Some?, cached);
      }
      ghost var c0 := cache;

      if !IsGenericType(t) {
        if !ContainsGenericParameters(s) {
          if universe.assignableFrom(t, s) {
            if key !in cache { cache := cache[key := Some(s)]; }
            return Done(true, cache[key]);
          } else {
            if key !in cache { cache := cache[key := None]; }
          }
        }
      }
      ghost var c1 := cache;
      var expectedTypeGenericDefinition := Definition(t);
      var expectedTypeArguments := GenericArguments(t);
      if !IsInterface(universe, t) {
        var cur: Option<Ty> := Some(s);
        while cur.Some?
          invariant cache == c1
          invariant ChainMatch(universe, s, expectedTypeGenericDefinition) ==
            if cur.Some? then ChainMatch(universe, cur.value, expectedTypeGenericDefinition) else None
          decreases if cur.Some? then Level(universe, cur.value) + 1 else 0
        {
          var current := cur.value;
          if IsGenericType(current) {
            var genericTypeDefinition := Definition(current);
            if genericTypeDefinition == expectedTypeGenericDefinition {
              if key !in cache { cache := cache[key := Some(current)]; }
              return Done(true, cache[key]);
            }
          }
          cur := BaseType(universe, current);
        }
      } else {
        assert Analyse(universe, c0, s, t, fuel) == InterfaceBranch(universe, c1, s, t, fuel);
        assert IsGenericType(t) ==> cache == c0;
        r := MatchInterface(s, t, fuel);
        return;
      }
      if key !in cache { cache := cache[key := None]; }
      return Done(false, None);
    }

    /** The interface-target part of `IsSubtypeOf`: the source's own construction, then each
        of its interfaces in order; the verdict is recorded for the pair. */
    method MatchInterface(s: Ty, t: Ty, fuel: nat) returns (r: Outcome)
      requires WellFormed(universe) && (IsGenericType(t) ==> Consistent(universe, cache))
      modifies this
      ensures (r, cache) == InterfaceBranch(universe, old(cache), s, t, fuel)
      decreases fuel, 3
    {
      var key := (s, t);
      ghost var c0 := cache;
      var expectedTypeGenericDefinition := Definition(t);
      var expectedTypeArguments := GenericArguments(t);
      if IsGenericType(s) {
        var td := Definition(s);
        if td == expectedTypeGenericDefinition {
          assert IsGenericType(t);
          var own := SatisfiesTypeConstraints(s, t, fuel);
          if own.OutOfFuel? { return OutOfFuel; }
          if own.verdict {
            if key !in cache { cache := cache[key := own.runtimeType]; }
            return own;
          }
        }
      }
      var interfaces := Interfaces(universe, s);
      for i := 0 to |interfaces|
        invariant SearchInterfaces(universe, cache, s, t, interfaces, i, fuel) == InterfaceBranch(universe, c0, s, t, fuel)
        invariant IsGenericType(t) ==> Consistent(universe, cache)
      {
        var iface := interfaces[i];
        if !IsGenericType(iface) { continue; }
        var ifaceDef := Definition(iface);
        if ifaceDef != expectedTypeGenericDefinition { continue; }
        var ifaceArgs := GenericArguments(iface);
        if |ifaceArgs| != |expectedTypeArguments| { continue; }
        assert IsGenericType(t);
        var o := SatisfiesTypeConstraints(iface, t, fuel);
        if o.OutOfFuel? { return OutOfFuel; }
        if o.verdict {
          if key !in cache { cache := cache[key := o.runtimeType]; }
          return o;
        }
      }
      if key !in cache { cache := cache[key := None]; }
      return Done(false, None);
    }

    /** `SatisfiesTypeConstraints(type, expectedType, out constrainedType)`. */
    method SatisfiesTypeConstraints(candidate: Ty, expectedType: Ty, fuel: nat) returns (r: Outcome)
      requires WellFormed(universe) && Consistent(universe, cache) && IsGenericType(expectedType)
      modifies this
      ensures (r, cache) == Satisfies(universe, old(cache), candidate, expectedType, fuel)
      ensures Consistent(universe, cache)
      decreases fuel, 2
    {
      var genericTypeArguments := GenericArguments(candidate);
      var expectedTypeArguments := GenericArguments(expectedType);
      if |genericTypeArguments| != |expectedTypeArguments| { return Done(false, None); }

      var l := |genericTypeArguments|;
      var substitutedArgs := new Ty[l];
      ghost var c0 := cache;
      for i := 0 to l
        invariant SubstituteArgs(universe, cache, genericTypeArguments, expectedTypeArguments, i, substitutedArgs[..i], fuel) ==
          SubstituteArgs(universe, c0, genericTypeArguments, expectedTypeArguments, 0, [], fuel)
        invariant Consistent(universe, cache)
      {
        ghost var done := substitutedArgs[..i];
        var next := SubstituteArgument(genericTypeArguments, expectedTypeArguments, i, done, fuel);
        if next.Exhausted? { return OutOfFuel; }
        if next.Reject? { return Done(false, None); }
        substitutedArgs[i] := next.value;
        assert substitutedArgs[..i + 1] == done + [next.value];
      }

      assert substitutedArgs[..] == substitutedArgs[..l];
      var expectedGenericDef := Definition(expectedType).value;
      r := Done(true, Some(MakeGenericType(expectedGenericDef, substitutedArgs[..])));
    }

    /** One pass of the argument loop of `SatisfiesTypeConstraints`: a closed expected
        argument takes the candidate's argument when it fits natively and otherwise the
        runtime type of a recursive query; an open one takes the candidate's argument when
        it meets the parameter's constraints. On success the loop goes on with that
        argument appended; otherwise the loop's own result is the failure. */
    method SubstituteArgument(cargs: seq<Ty>, targs: seq<Ty>, i: nat, ghost acc: seq<Ty>, fuel: nat) returns (r: Step<Ty>)
      requires WellFormed(universe) && Consistent(universe, cache)
      requires |cargs| == |targs| && i < |cargs| && |acc| == i
      modifies this
      ensures r.Proceed? ==>
        SubstituteArgs(universe, old(cache), cargs, targs, i, acc, fuel) ==
        SubstituteArgs(universe, cache, cargs, targs, i + 1, acc + [r.value], fuel)
      ensures r.Exhausted? ==> SubstituteArgs(universe, old(cache), cargs, targs, i, acc, fuel) == (Exhausted, cache)
      ensures r.Reject? ==> SubstituteArgs(universe, old(cache), cargs, targs, i, acc, fuel) == (Reject, cache)
      ensures Consistent(universe, cache)
      decreases fuel, 1
    {
      var typeArg := cargs[i];
      var expectedTypeArg := targs[i];
      if !IsGenericParameter(expectedTypeArg) {
        if expectedTypeArg == typeArg || universe.assignableFrom(expectedTypeArg, typeArg) {
          return Proceed(typeArg);
        }
        if fuel == 0 { return Exhausted; }
        var sub := IsSubtypeOf(Some(typeArg), Some(expectedTypeArg), fuel - 1);
        if sub.OutOfFuel? { return Exhausted; }
        if !sub.verdict { return Reject; }
        return Proceed(sub.runtimeType.value);
      } else {
        var constraints := Constraints(universe, expectedTypeArg);
        var met := MeetsConstraints(typeArg, constraints, fuel);
        if met.Exhausted? { return Exhausted; }
        if met.Reject? { return Reject; }
        return Proceed(typeArg);
      }
    }

    /** The inner loop of `SatisfiesTypeConstraints` over the constraints of an open
        parameter: every constraint must be the argument itself, natively assignable from
        it, or a supertype of it by a recursive query. */
    method MeetsConstraints(typeArg: Ty, constraints: seq<Ty>, fuel: nat) returns (r: Step<Ty>)
      requires WellFormed(universe) && Consistent(universe, cache)
      modifies this
      ensures (r, cache) == MeetConstraints(universe, old(cache), typeArg, constraints, 0, fuel)
      ensures Consistent(universe, cache)
      decreases fuel, 0
    {
      ghost var c0 := cache;
      for c := 0 to |constraints|
        invariant MeetConstraints(universe, cache, typeArg, constraints, c, fuel) ==
          MeetConstraints(universe, c0, typeArg, constraints, 0, fuel)
        invariant Consistent(universe, cache)
      {
        var constraint := constraints[c];
        if constraint == typeArg || universe.assignableFrom(constraint, typeArg) { continue; }
        if fuel == 0 { return Exhausted; }
        var sub := IsSubtypeOf(Some(typeArg), Some(constraint), fuel - 1);
        if sub.OutOfFuel? { return Exhausted; }
        if !sub.verdict { return Reject; }
      }
      return Proceed(typeArg);
    }
  }
}
