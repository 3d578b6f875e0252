/**
 * The substitution checker of TypeExtensions.cs as functions that thread the
 * substitution cache through every step, in the order the source performs
 * them: identity short-circuit, cache lookup, the non-generic target check,
 * the base-chain walk for class targets, and for interface targets the
 * source's own construction followed by its interfaces, with per-argument
 * constraint checks that recurse back into the checker.
 *
 * The source's recursion has no bound; here every recursive query spends one
 * unit of `fuel`, and running out yields `OutOfFuel`, which aborts the whole
 * query without recording anything for the pairs still being analysed.
 */
module Substitution {
  import opened Wrappers
  import opened TypeModel

  /** The substitution cache: a resolved type per (source, target) pair, or
      `None` for a pair proven not substitutable. */
  type Cache = map<(Ty, Ty), Option<Ty>>

  /** The boolean verdict with the `runtimeType` out-parameter, or an aborted query. */
  datatype Outcome = Done(verdict: bool, runtimeType: Option<Ty>) | OutOfFuel

  /** The state of a loop of the constraint check: carry on with a value, give up, or abort. */
  datatype Step<T> = Proceed(value: T) | Reject | Exhausted

  /** A completed verdict is true exactly when a runtime type is returned. */
  predicate Coherent(o: Outcome) {
    o.Done? ==> (o.verdict <==> o.runtimeType.Some?)
  }

  /** Every entry of `c` is still in `c'`, with the same value. */
  ghost predicate Extends(c': Cache, c: Cache) {
    forall k | k in c :: k in c' && c'[k] == c[k]
  }

  /** `ConcurrentDictionary.TryAdd`: inserts only when the key is absent. */
  function TryAdd(c: Cache, k: (Ty, Ty), v: Option<Ty>): (c': Cache)
    ensures k in c' && Extends(c', c) && c'.Keys == c.Keys + {k}
    ensures k !in c ==> c'[k] == v
  {
    if k in c then c else c[k := v]
  }

  /** `ConcurrentDictionary.GetOrAdd`: the value already there, or the new one once inserted. */
  function GetOrAdd(c: Cache, k: (Ty, Ty), v: Option<Ty>): (r: (Option<Ty>, Cache))
    ensures r.1 == TryAdd(c, k, v) && r.0 == r.1[k]
  {
    if k in c then (c[k], c) else (v, c[k := v])
  }

  /** The type is a generic construction of definition `def`. */
  predicate OfDefinition(t: Ty, def: Option<Ty>) {
    IsGenericType(t) && Definition(t) == def
  }

  /** The do/while walk up the base chain: the first type on the chain built from `def`. */
  function ChainMatch(u: Universe, t: Ty, def: Option<Ty>): (r: Option<Ty>)
    requires WellFormed(u)
    ensures r.Some? ==> OfDefinition(r.value, def)
    decreases Level(u, t)
  {
    if OfDefinition(t, def) then Some(t)
    else
      match BaseType(u, t)
      case None => None
      case Some(b) => ChainMatch(u, b, def)
  }

  /** No type of `chain` is built from `def`. */
  ghost predicate NoneOfDefinition(chain: seq<Ty>, def: Option<Ty>) {
    forall k | 0 <= k < |chain| :: !OfDefinition(chain[k], def)
  }

  /** `chain[k]` is the first type of `chain` built from `def`. */
  ghost predicate FirstOfDefinition(chain: seq<Ty>, def: Option<Ty>, k: int) {
    0 <= k < |chain| && OfDefinition(chain[k], def) && forall j | 0 <= j < k :: !OfDefinition(chain[j], def)
  }

  /** The walk finds nothing exactly when no type on the chain is built from `def`, and
      otherwise returns the first one that is. */
  lemma {:induction false} ChainMatchIsFirst(u: Universe, t: Ty, def: Option<Ty>)
    requires WellFormed(u)
    ensures ChainMatch(u, t, def).None? <==> NoneOfDefinition(BaseChain(u, t), def)
    ensures ChainMatch(u, t, def).Some? ==>
      exists k | 0 <= k < |BaseChain(u, t)| :: FirstOfDefinition(BaseChain(u, t), def, k) &&
        BaseChain(u, t)[k] == ChainMatch(u, t, def).value
    decreases Level(u, t)
  {
    var chain := BaseChain(u, t);
    if OfDefinition(t, def) {
      assert FirstOfDefinition(chain, def, 0);
    } else {
      match BaseType(u, t)
      case None =>
      case Some(b) =>
        ChainMatchIsFirst(u, b, def);
        var rest := BaseChain(u, b);
        assert chain == [t] + rest;
        if ChainMatch(u, b, def).Some? {
          var k :| 0 <= k < |rest| && FirstOfDefinition(rest, def, k) && rest[k] == ChainMatch(u, b, def).value;
          assert chain[k + 1] == rest[k];
          forall j | 0 <= j < k + 1 ensures !OfDefinition(chain[j], def) {
            if j > 0 { assert chain[j] == rest[j - 1]; }
          }
          assert FirstOfDefinition(chain, def, k + 1);
        } else {
          forall k | 0 <= k < |chain| ensures !OfDefinition(chain[k], def) {
            if k > 0 { assert chain[k] == rest[k - 1]; }
          }
        }
    }
  }

  /** An interface the loop over `GetInterfaces` goes on to check against target `t`. */
  predicate Candidate(iface: Ty, t: Ty) {
    IsGenericType(iface) && Definition(iface) == Definition(t) &&
    |GenericArguments(iface)| == |GenericArguments(t)|
  }

  /** A position whose candidate argument is taken over unchanged, with no recursive query
      for the argument itself: an open parameter, or an equal or natively assignable argument. */
  predicate PassThrough(u: Universe, a: Ty, e: Ty) {
    IsGenericParameter(e) || e == a || u.assignableFrom(e, a)
  }

  /** The resolved type has the shape the checker promises for target `t`. */
  predicate ResolvesTo(rt: Ty, s: Ty, t: Ty) {
    if IsGenericType(t) then Definition(rt) == Definition(t) else rt == s
  }

  /** `IsSubtypeOf(type, expectedType, out runtimeType)`. */
  function Check(u: Universe, cache: Cache, s: Option<Ty>, t: Option<Ty>, fuel: nat): (r: (Outcome, Cache))
    requires WellFormed(u)
    ensures Coherent(r.0) && Extends(r.1, cache)
    ensures s.Some? && t.Some? && s != t && r.0.Done? ==> (s.value, t.value) in r.1
    decreases fuel, 6, 0
  {
    if s.None? || t.None? then (Done(false, None), cache)
    else if s == t then (Done(true, s), cache)
    else if (s.value, t.value) in cache then
      var v := cache[(s.value, t.value)];
      (Done(v.Some?, v), cache)
    else Analyse(u, cache, s.value, t.value, fuel)
  }

  /** The part of `IsSubtypeOf` after a cache miss. */
  function Analyse(u: Universe, cache: Cache, s: Ty, t: Ty, fuel: nat): (r: (Outcome, Cache))
    requires WellFormed(u) && (s, t) !in cache
    ensures Coherent(r.0) && Extends(r.1, cache)
    ensures r.0.Done? ==> (s, t) in r.1
    ensures r.0.Done? && r.0.verdict ==> ResolvesTo(r.0.runtimeType.value, s, t)
    decreases fuel, 5, 0
  {
    var key := (s, t);
    var closed := !ContainsGenericParameters(s);
    if !IsGenericType(t) && closed && u.assignableFrom(t, s) then
      var (v, c) := GetOrAdd(cache, key, Some(s));
      (Done(true, v), c)
    else
      var c1 := if !IsGenericType(t) && closed then TryAdd(cache, key, None) else cache;
      if !IsInterface(u, t) then
        var m := ChainMatch(u, s, Definition(t));
        if m.Some? then
          var (v, c2) := GetOrAdd(c1, key, m);
          (Done(true, v), c2)
        else
          (Done(false, None), TryAdd(c1, key, None))
      else
        InterfaceBranch(u, c1, s, t, fuel)
  }

  /** Interface target: the source's own construction first, then its interfaces. */
  function InterfaceBranch(u: Universe, cache: Cache, s: Ty, t: Ty, fuel: nat): (r: (Outcome, Cache))
    requires WellFormed(u)
    ensures Coherent(r.0) && Extends(r.1, cache)
    ensures r.0.Done? ==> (s, t) in r.1
    ensures r.0.Done? && r.0.verdict ==> IsGenericType(t) && Definition(r.0.runtimeType.value) == Definition(t)
    decreases fuel, 4, 0
  {
    var own := if IsGenericType(s) && Definition(s) == Definition(t) then Satisfies(u, cache, s, t, fuel)
               else (Done(false, None), cache);
    if own.0.OutOfFuel? then own
    else if own.0.verdict then (own.0, TryAdd(own.1, (s, t), own.0.runtimeType))
    else SearchInterfaces(u, own.1, s, t, Interfaces(u, s), 0, fuel)
  }

  /** The `for` loop over `GetInterfaces`, from position `i` on: the first candidate
      that satisfies the constraints wins. */
  function SearchInterfaces(u: Universe, cache: Cache, s: Ty, t: Ty, ifaces: seq<Ty>, i: nat, fuel: nat)
    : (r: (Outcome, Cache))
    requires WellFormed(u) && i <= |ifaces|
    ensures Coherent(r.0) && Extends(r.1, cache)
    ensures r.0.Done? ==> (s, t) in r.1
    ensures r.0.Done? && r.0.verdict ==> IsGenericType(t) && Definition(r.0.runtimeType.value) == Definition(t)
    decreases fuel, 3, |ifaces| - i
  {
    if i == |ifaces| then (Done(false, None), TryAdd(cache, (s, t), None))
    else if !Candidate(ifaces[i], t) then SearchInterfaces(u, cache, s, t, ifaces, i + 1, fuel)
    else
      var (o, c) := Satisfies(u, cache, ifaces[i], t, fuel);
      if o.OutOfFuel? then (o, c)
      else if o.verdict then (o, TryAdd(c, (s, t), o.runtimeType))
      else SearchInterfaces(u, c, s, t, ifaces, i + 1, fuel)
  }

  /** `SatisfiesTypeConstraints(type, expectedType, out constrainedType)`. The source only calls
      it with a generic expected type (whose definition it then takes). */
  function Satisfies(u: Universe, cache: Cache, cand: Ty, t: Ty, fuel: nat): (r: (Outcome, Cache))
    requires WellFormed(u) && IsGenericType(t)
    ensures Coherent(r.0) && Extends(r.1, cache)
    ensures |GenericArguments(cand)| != |t.args| ==> r == (Done(false, None), cache)
    ensures r.0.Done? && r.0.verdict ==> var rt := r.0.runtimeType.value;
      Definition(rt) == Definition(t) && rt.Con? && |rt.args| == |t.args| == |GenericArguments(cand)| &&
      forall k | 0 <= k < |t.args| ::
        PassThrough(u, GenericArguments(cand)[k], t.args[k]) ==> rt.args[k] == GenericArguments(cand)[k]
    decreases fuel, 2, 0
  {
    var cargs := GenericArguments(cand);
    var targs := GenericArguments(t);
    if |cargs| != |targs| then (Done(false, None), cache)
    else
      var (a, c) := SubstituteArgs(u, cache, cargs, targs, 0, [], fuel);
      match a
      case Proceed(xs) => (Done(true, Some(MakeGenericType(Definition(t).value, xs))), c)
      case Reject => (Done(false, None), c)
      case Exhausted => (OutOfFuel, c)
  }

  /** The `for` loop filling `substitutedArgs`, from position `i` on, with `acc` the
      arguments substituted so far. */
  function SubstituteArgs(u: Universe, cache: Cache, cargs: seq<Ty>, targs: seq<Ty>, i: nat, acc: seq<Ty>, fuel: nat)
    : (r: (Step<seq<Ty>>, Cache))
    requires WellFormed(u) && |cargs| == |targs| && i <= |cargs| && |acc| == i
    ensures Extends(r.1, cache)
    ensures r.0.Proceed? ==> |r.0.value| == |cargs| && r.0.value[..i] == acc
    ensures r.0.Proceed? ==> forall k | i <= k < |cargs| :: PassThrough(u, cargs[k], targs[k]) ==> r.0.value[k] == cargs[k]
    decreases fuel, 1, |cargs| - i
  {
    if i == |cargs| then (Proceed(acc), cache)
    else
      var a := cargs[i];
      var e := targs[i];
      if !IsGenericParameter(e) then
        if e == a || u.assignableFrom(e, a) then
          SubstituteArgs(u, cache, cargs, targs, i + 1, acc + [a], fuel)
        else if fuel == 0 then (Exhausted, cache)
        else
          var (o, c) := Check(u, cache, Some(a), Some(e), fuel - 1);
          if o.OutOfFuel? then (Exhausted, c)
          else if !o.verdict then (Reject, c)
          else SubstituteArgs(u, c, cargs, targs, i + 1, acc + [o.runtimeType.value], fuel)
      else
        var (o, c) := MeetConstraints(u, cache, a, Constraints(u, e), 0, fuel);
        match o
        case Proceed(_) => SubstituteArgs(u, c, cargs, targs, i + 1, acc + [a], fuel)
        case Reject => (Reject, c)
        case Exhausted => (Exhausted, c)
  }

  /** The inner `for` loop over an open parameter's constraints, from position `j` on;
      on success the candidate argument `a` passes through unchanged. */
  function MeetConstraints(u: Universe, cache: Cache, a: Ty, cs: seq<Ty>, j: nat, fuel: nat)
    : (r: (Step<Ty>, Cache))
    requires WellFormed(u) && j <= |cs|
    ensures Extends(r.1, cache)
    ensures r.0.Proceed? ==> r.0.value == a
    decreases fuel, 0, |cs| - j
  {
    if j == |cs| then (Proceed(a), cache)
    else if cs[j] == a || u.assignableFrom(cs[j], a) then MeetConstraints(u, cache, a, cs, j + 1, fuel)
    else if fuel == 0 then (Exhausted, cache)
    else
      var (o, c) := Check(u, cache, Some(a), Some(cs[j]), fuel - 1);
      if o.OutOfFuel? then (Exhausted, c)
      else if !o.verdict then (Reject, c)
      else MeetConstraints(u, c, a, cs, j + 1, fuel)
  }
}
