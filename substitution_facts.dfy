/**
 * What the checker of TypeExtensions.cs promises about one query, stated on
 * the state-passing model of module Substitution: the null, identity and
 * cache-hit short-circuits, the verdict for a non-generic target, the
 * base-chain walk for a class target, and the order in which an interface
 * target is tried.
 */
module SubstitutionFacts {
  import opened Wrappers
  import opened TypeModel
  import opened Substitution

  /** A null argument is rejected with a null runtime type and the cache untouched. */
  lemma NullArgumentsRejected(u: Universe, c: Cache, s: Option<Ty>, t: Option<Ty>, fuel: nat)
    requires WellFormed(u) && (s.None? || t.None?)
    ensures Check(u, c, s, t, fuel) == (Done(false, None), c)
  {
  }

  /** Every type stands in for itself, as itself, and nothing is recorded. */
  lemma Reflexive(u: Universe, c: Cache, t: Ty, fuel: nat)
    requires WellFormed(u)
    ensures Check(u, c, Some(t), Some(t), fuel) == (Done(true, Some(t)), c)
  {
  }

  /** A cached pair is answered from the cache, which stays as it was. */
  lemma CachedVerdict(u: Universe, c: Cache, s: Ty, t: Ty, fuel: nat)
    requires WellFormed(u) && s != t && (s, t) in c
    ensures Check(u, c, Some(s), Some(t), fuel) == (Done(c[(s, t)].Some?, c[(s, t)]), c)
  {
  }

  /** Walking a base chain for a null definition finds nothing. */
  lemma {:induction false} ChainMatchNoDefinition(u: Universe, t: Ty)
    requires WellFormed(u)
    ensures ChainMatch(u, t, None) == None
    decreases Level(u, t)
  {
    match BaseType(u, t)
    case None =>
    case Some(b) => ChainMatchNoDefinition(u, b);
  }

  /** The interface loop over interfaces none of which is a candidate records a rejection. */
  lemma {:induction false} SearchWithoutCandidates(u: Universe, c: Cache, s: Ty, t: Ty, ifaces: seq<Ty>, i: nat, fuel: nat)
    requires WellFormed(u) && i <= |ifaces|
    requires forall k | i <= k < |ifaces| :: !Candidate(ifaces[k], t)
    ensures SearchInterfaces(u, c, s, t, ifaces, i, fuel) == (Done(false, None), TryAdd(c, (s, t), None))
    decreases |ifaces| - i
  {
    if i < |ifaces| {
      SearchWithoutCandidates(u, c, s, t, ifaces, i + 1, fuel);
    }
  }

  /** For a non-generic target the verdict is native assignability of a closed source, the
      runtime type is the source itself, and exactly that verdict is recorded. */
  lemma NonGenericTarget(u: Universe, c: Cache, s: Ty, t: Ty, fuel: nat)
    requires WellFormed(u) && s != t && (s, t) !in c && !IsGenericType(t)
    ensures var ok := !ContainsGenericParameters(s) && u.assignableFrom(t, s);
      var v := if ok then Some(s) else None;
      Check(u, c, Some(s), Some(t), fuel) == (Done(ok, v), c[(s, t) := v])
  {
    var ok := !ContainsGenericParameters(s) && u.assignableFrom(t, s);
    assert Check(u, c, Some(s), Some(t), fuel) == Analyse(u, c, s, t, fuel);
    if !ok {
      var c1 := if !ContainsGenericParameters(s) then TryAdd(c, (s, t), None) else c;
      if IsInterface(u, t) {
        var ifaces := Interfaces(u, s);
        forall k | 0 <= k < |ifaces| ensures !Candidate(ifaces[k], t) {
          assert Definition(t) == None;
        }
        SearchWithoutCandidates(u, c1, s, t, ifaces, 0, fuel);
        assert Analyse(u, c, s, t, fuel) == InterfaceBranch(u, c1, s, t, fuel);
      } else {
        ChainMatchNoDefinition(u, s);
      }
    }
  }

  /** For a class target the answer is the first type on the source's base chain built from
      the target's definition, returned as it is; that answer is recorded. */
  lemma ClassTarget(u: Universe, c: Cache, s: Ty, t: Ty, fuel: nat)
    requires WellFormed(u) && s != t && (s, t) !in c && IsGenericType(t) && !IsInterface(u, t)
    ensures var r := Check(u, c, Some(s), Some(t), fuel);
      r.0.Done? && r.1 == c[(s, t) := r.0.runtimeType] &&
      (r.0.verdict <==> !NoneOfDefinition(BaseChain(u, s), Definition(t))) &&
      (r.0.verdict ==> exists k | 0 <= k < |BaseChain(u, s)| ::
        FirstOfDefinition(BaseChain(u, s), Definition(t), k) && BaseChain(u, s)[k] == r.0.runtimeType.value)
  {
    ChainMatchIsFirst(u, s, Definition(t));
  }

  /** Against a class target only the definition matters: two constructions of the same
      definition get the same answer, whatever their arguments. */
  lemma ClassVerdictIgnoresTargetArguments(u: Universe, c: Cache, s: Ty, t1: Ty, t2: Ty, fuel: nat)
    requires WellFormed(u) && IsGenericType(t1) && !IsInterface(u, t1) && Definition(t1) == Definition(t2)
    requires s != t1 && s != t2 && (s, t1) !in c && (s, t2) !in c
    ensures Check(u, c, Some(s), Some(t1), fuel).0 == Check(u, c, Some(s), Some(t2), fuel).0
  {
    assert t1.name == t2.name && |t1.args| == |t2.args|;
    assert IsGenericType(t2) && !IsInterface(u, t2);
  }

  /** For an interface target the source's own construction is tried first: when it
      satisfies the constraints its substitution is the answer and is recorded, and the
      source's interfaces are not consulted. */
  lemma OwnConstructionFirst(u: Universe, c: Cache, s: Ty, t: Ty, fuel: nat)
    requires WellFormed(u) && s != t && (s, t) !in c && IsGenericType(t) && IsInterface(u, t)
    requires IsGenericType(s) && Definition(s) == Definition(t)
    requires Satisfies(u, c, s, t, fuel).0.Done? && Satisfies(u, c, s, t, fuel).0.verdict
    ensures var own := Satisfies(u, c, s, t, fuel);
      Check(u, c, Some(s), Some(t), fuel) == (own.0, TryAdd(own.1, (s, t), own.0.runtimeType))
  {
    assert Check(u, c, Some(s), Some(t), fuel) == Analyse(u, c, s, t, fuel) == InterfaceBranch(u, c, s, t, fuel);
  }

  /** Otherwise the interfaces are searched in order, from the cache the attempt on the
      source's own construction left behind. */
  lemma InterfacesAfterOwnConstruction(u: Universe, c: Cache, s: Ty, t: Ty, fuel: nat)
    requires WellFormed(u) && s != t && (s, t) !in c && IsGenericType(t) && IsInterface(u, t)
    ensures var own := if IsGenericType(s) && Definition(s) == Definition(t) then Satisfies(u, c, s, t, fuel)
                       else (Done(false, None), c);
      own.0 == Done(false, None) ==>
        Check(u, c, Some(s), Some(t), fuel) == SearchInterfaces(u, own.1, s, t, Interfaces(u, s), 0, fuel)
  {
    assert Check(u, c, Some(s), Some(t), fuel) == Analyse(u, c, s, t, fuel) == InterfaceBranch(u, c, s, t, fuel);
  }

  /** The interface loop's filter compares definitions and argument counts; for a generic
      target that is having the target's name and arity. */
  lemma CandidateIsSameShape(iface: Ty, t: Ty)
    requires IsGenericType(t)
    ensures Candidate(iface, t) <==> iface.Con? && iface.name == t.name && |iface.args| == |t.args|
  {
    if Candidate(iface, t) {
      assert |Definition(iface).value.args| == |Definition(t).value.args|;
    }
  }
}
