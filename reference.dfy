/**
 * The substitution checker without its cache: the same decision procedure as
 * TypeExtensions.cs, step for step, but with every query recomputed. It is
 * the reference against which the cached checker is proved (module
 * CacheSoundness), and the place where the checker's first-match and
 * result-shape properties are stated.
 *
 * For a non-generic target it decides at once, as the source's generic
 * analysis cannot match such a target (lemma SubstitutionFacts.NonGenericTarget).
 */
module Reference {
  import opened Wrappers
  import opened TypeModel
  import opened Substitution

  /** Whether `s` can stand in for `t`, and as which type, with no cache. */
  function Sub(u: Universe, s: Ty, t: Ty, fuel: nat): (r: Outcome)
    requires WellFormed(u)
    ensures Coherent(r)
    ensures r.Done? && r.verdict ==> ResolvesTo(r.runtimeType.value, s, t)
    decreases fuel, 4, 0
  {
    if s == t then Done(true, Some(s))
    else if !IsGenericType(t) then
      if !ContainsGenericParameters(s) && u.assignableFrom(t, s) then Done(true, Some(s)) else Done(false, None)
    else if !IsInterface(u, t) then
      var m := ChainMatch(u, s, Definition(t));
      Done(m.Some?, m)
    else
      var own := if IsGenericType(s) && Definition(s) == Definition(t) then SubSatisfies(u, s, t, fuel)
                 else Done(false, None);
      if own.OutOfFuel? || own.verdict then own
      else SubInterfaces(u, s, t, Interfaces(u, s), 0, fuel)
  }

  /** The interface loop from position `i` on. */
  function SubInterfaces(u: Universe, s: Ty, t: Ty, ifaces: seq<Ty>, i: nat, fuel: nat): (r: Outcome)
    requires WellFormed(u) && IsGenericType(t) && i <= |ifaces|
    ensures Coherent(r)
    ensures r.Done? && r.verdict ==> Definition(r.runtimeType.value) == Definition(t)
    decreases fuel, 3, |ifaces| - i
  {
    if i == |ifaces| then Done(false, None)
    else if !Candidate(ifaces[i], t) then SubInterfaces(u, s, t, ifaces, i + 1, fuel)
    else
      var o := SubSatisfies(u, ifaces[i], t, fuel);
      if o.OutOfFuel? || o.verdict then o
      else SubInterfaces(u, s, t, ifaces, i + 1, fuel)
  }

  /** The constraint check without a cache. */
  function SubSatisfies(u: Universe, cand: Ty, t: Ty, fuel: nat): (r: Outcome)
    requires WellFormed(u) && IsGenericType(t)
    ensures Coherent(r)
    ensures r.Done? && r.verdict ==> Definition(r.runtimeType.value) == Definition(t)
    decreases fuel, 2, 0
  {
    var cargs := GenericArguments(cand);
    if |cargs| != |t.args| then Done(false, None)
    else
      match SubArgs(u, cargs, t.args, 0, [], fuel)
      case Proceed(xs) => Done(true, Some(MakeGenericType(Definition(t).value, xs)))
      case Reject => Done(false, None)
      case Exhausted => OutOfFuel
  }

  /** The argument loop without a cache, from position `i` on. */
  function SubArgs(u: Universe, cargs: seq<Ty>, targs: seq<Ty>, i: nat, acc: seq<Ty>, fuel: nat)
    : (r: Step<seq<Ty>>)
    requires WellFormed(u) && |cargs| == |targs| && i <= |cargs| && |acc| == i
    ensures r.Proceed? ==> |r.value| == |cargs|
    decreases fuel, 1, |cargs| - i
  {
    if i == |cargs| then Proceed(acc)
    else
      var a := cargs[i];
      var e := targs[i];
      if !IsGenericParameter(e) then
        if e == a || u.assignableFrom(e, a) then SubArgs(u, cargs, targs, i + 1, acc + [a], fuel)
        else if fuel == 0 then Exhausted
        else
          var o := Sub(u, a, e, fuel - 1);
          if o.OutOfFuel? then Exhausted
          else if !o.verdict then Reject
          else SubArgs(u, cargs, targs, i + 1, acc + [o.runtimeType.value], fuel)
      else
        match SubConstraints(u, a, Constraints(u, e), 0, fuel)
        case Proceed(_) => SubArgs(u, cargs, targs, i + 1, acc + [a], fuel)
        case Reject => Reject
        case Exhausted => Exhausted
  }

  /** The constraint loop of an open parameter without a cache, from position `j` on. */
  function SubConstraints(u: Universe, a: Ty, cs: seq<Ty>, j: nat, fuel: nat): (r: Step<Ty>)
    requires WellFormed(u) && j <= |cs|
    ensures r.Proceed? ==> r.value == a
    decreases fuel, 0, |cs| - j
  {
    if j == |cs| then Proceed(a)
    else if cs[j] == a || u.assignableFrom(cs[j], a) then SubConstraints(u, a, cs, j + 1, fuel)
    else if fuel == 0 then Exhausted
    else
      var o := Sub(u, a, cs[j], fuel - 1);
      if o.OutOfFuel? then Exhausted
      else if !o.verdict then Reject
      else SubConstraints(u, a, cs, j + 1, fuel)
  }

  // ---------------------------------------------------------------------------
  // Fuel: an answer that did not run out stays the same with more fuel.
  // ---------------------------------------------------------------------------

  lemma {:induction false} SubMono(u: Universe, s: Ty, t: Ty, fuel: nat)
    requires WellFormed(u) && Sub(u, s, t, fuel) != OutOfFuel
    ensures Sub(u, s, t, fuel + 1) == Sub(u, s, t, fuel)
    decreases fuel, 4, 0
  {
    if s != t && IsGenericType(t) && IsInterface(u, t) {
      if IsGenericType(s) && Definition(s) == Definition(t) {
        SubSatisfiesMono(u, s, t, fuel);
      }
      var own := if IsGenericType(s) && Definition(s) == Definition(t) then SubSatisfies(u, s, t, fuel)
                 else Done(false, None);
      if !own.verdict {
        SubInterfacesMono(u, s, t, Interfaces(u, s), 0, fuel);
      }
    }
  }

  lemma {:induction false} SubInterfacesMono(u: Universe, s: Ty, t: Ty, ifaces: seq<Ty>, i: nat, fuel: nat)
    requires WellFormed(u) && IsGenericType(t) && i <= |ifaces|
    requires SubInterfaces(u, s, t, ifaces, i, fuel) != OutOfFuel
    ensures SubInterfaces(u, s, t, ifaces, i, fuel + 1) == SubInterfaces(u, s, t, ifaces, i, fuel)
    decreases fuel, 3, |ifaces| - i
  {
    if i < |ifaces| {
      if !Candidate(ifaces[i], t) {
        SubInterfacesMono(u, s, t, ifaces, i + 1, fuel);
      } else {
        SubSatisfiesMono(u, ifaces[i], t, fuel);
        if !SubSatisfies(u, ifaces[i], t, fuel).verdict {
          SubInterfacesMono(u, s, t, ifaces, i + 1, fuel);
        }
      }
    }
  }

  lemma {:induction false} SubSatisfiesMono(u: Universe, cand: Ty, t: Ty, fuel: nat)
    requires WellFormed(u) && IsGenericType(t) && SubSatisfies(u, cand, t, fuel) != OutOfFuel
    ensures SubSatisfies(u, cand, t, fuel + 1) == SubSatisfies(u, cand, t, fuel)
    decreases fuel, 2, 0
  {
    var cargs := GenericArguments(cand);
    if |cargs| == |t.args| {
      SubArgsMono(u, cargs, t.args, 0, [], fuel);
    }
  }

  lemma {:induction false} SubArgsMono(u: Universe, cargs: seq<Ty>, targs: seq<Ty>, i: nat, acc: seq<Ty>, fuel: nat)
    requires WellFormed(u) && |cargs| == |targs| && i <= |cargs| && |acc| == i
    requires SubArgs(u, cargs, targs, i, acc, fuel) != Exhausted
    ensures SubArgs(u, cargs, targs, i, acc, fuel + 1) == SubArgs(u, cargs, targs, i, acc, fuel)
    decreases fuel, 1, |cargs| - i
  {
    if i < |cargs| {
      var a := cargs[i];
      var e := targs[i];
      if !IsGenericParameter(e) {
        if e == a || u.assignableFrom(e, a) {
          SubArgsMono(u, cargs, targs, i + 1, acc + [a], fuel);
        } else if fuel > 0 {
          var o := Sub(u, a, e, fuel - 1);
          SubMono(u, a, e, fuel - 1);
          if o.verdict {
            SubArgsMono(u, cargs, targs, i + 1, acc + [o.runtimeType.value], fuel);
          }
        }
      } else {
        var cs := Constraints(u, e);
        SubConstraintsMono(u, a, cs, 0, fuel);
        if SubConstraints(u, a, cs, 0, fuel).Proceed? {
          SubArgsMono(u, cargs, targs, i + 1, acc + [a], fuel);
        }
      }
    }
  }

  lemma {:induction false} SubConstraintsMono(u: Universe, a: Ty, cs: seq<Ty>, j: nat, fuel: nat)
    requires WellFormed(u) && j <= |cs| && SubConstraints(u, a, cs, j, fuel) != Exhausted
    ensures SubConstraints(u, a, cs, j, fuel + 1) == SubConstraints(u, a, cs, j, fuel)
    decreases fuel, 0, |cs| - j
  {
    if j < |cs| {
      if cs[j] == a || u.assignableFrom(cs[j], a) {
        SubConstraintsMono(u, a, cs, j + 1, fuel);
      } else if fuel > 0 {
        SubMono(u, a, cs[j], fuel - 1);
        if Sub(u, a, cs[j], fuel - 1).verdict {
          SubConstraintsMono(u, a, cs, j + 1, fuel);
        }
      }
    }
  }

  /** Any larger amount of fuel gives the same answer. */
  lemma {:induction false} SubMonoLe(u: Universe, s: Ty, t: Ty, fuel: nat, more: nat)
    requires WellFormed(u) && fuel <= more && Sub(u, s, t, fuel) != OutOfFuel
    ensures Sub(u, s, t, more) == Sub(u, s, t, fuel)
    decreases more - fuel
  {
    if fuel < more {
      SubMono(u, s, t, fuel);
      SubMonoLe(u, s, t, fuel + 1, more);
    }
  }

  lemma {:induction false} SubInterfacesMonoLe(u: Universe, s: Ty, t: Ty, ifaces: seq<Ty>, i: nat, fuel: nat, more: nat)
    requires WellFormed(u) && IsGenericType(t) && i <= |ifaces| && fuel <= more
    requires SubInterfaces(u, s, t, ifaces, i, fuel) != OutOfFuel
    ensures SubInterfaces(u, s, t, ifaces, i, more) == SubInterfaces(u, s, t, ifaces, i, fuel)
    decreases more - fuel
  {
    if fuel < more {
      SubInterfacesMono(u, s, t, ifaces, i, fuel);
      SubInterfacesMonoLe(u, s, t, ifaces, i, fuel + 1, more);
    }
  }

  lemma {:induction false} SubSatisfiesMonoLe(u: Universe, cand: Ty, t: Ty, fuel: nat, more: nat)
    requires WellFormed(u) && IsGenericType(t) && fuel <= more && SubSatisfies(u, cand, t, fuel) != OutOfFuel
    ensures SubSatisfies(u, cand, t, more) == SubSatisfies(u, cand, t, fuel)
    decreases more - fuel
  {
    if fuel < more {
      SubSatisfiesMono(u, cand, t, fuel);
      SubSatisfiesMonoLe(u, cand, t, fuel + 1, more);
    }
  }

  lemma {:induction false} SubArgsMonoLe(u: Universe, cargs: seq<Ty>, targs: seq<Ty>, i: nat, acc: seq<Ty>, fuel: nat, more: nat)
    requires WellFormed(u) && |cargs| == |targs| && i <= |cargs| && |acc| == i && fuel <= more
    requires SubArgs(u, cargs, targs, i, acc, fuel) != Exhausted
    ensures SubArgs(u, cargs, targs, i, acc, more) == SubArgs(u, cargs, targs, i, acc, fuel)
    decreases more - fuel
  {
    if fuel < more {
      SubArgsMono(u, cargs, targs, i, acc, fuel);
      SubArgsMonoLe(u, cargs, targs, i, acc, fuel + 1, more);
    }
  }

  lemma {:induction false} SubConstraintsMonoLe(u: Universe, a: Ty, cs: seq<Ty>, j: nat, fuel: nat, more: nat)
    requires WellFormed(u) && j <= |cs| && fuel <= more && SubConstraints(u, a, cs, j, fuel) != Exhausted
    ensures SubConstraints(u, a, cs, j, more) == SubConstraints(u, a, cs, j, fuel)
    decreases more - fuel
  {
    if fuel < more {
      SubConstraintsMono(u, a, cs, j, fuel);
      SubConstraintsMonoLe(u, a, cs, j, fuel + 1, more);
    }
  }

  /** Two answers for the same pair that did not run out agree, whatever the fuel. */
  lemma SubDeterministic(u: Universe, s: Ty, t: Ty, f1: nat, f2: nat)
    requires WellFormed(u) && Sub(u, s, t, f1) != OutOfFuel && Sub(u, s, t, f2) != OutOfFuel
    ensures Sub(u, s, t, f1) == Sub(u, s, t, f2)
  {
    if f1 <= f2 { SubMonoLe(u, s, t, f1, f2); } else { SubMonoLe(u, s, t, f2, f1); }
  }

  // ---------------------------------------------------------------------------
  // First match over interfaces.
  // ---------------------------------------------------------------------------

  /** The candidate at `k` satisfies the constraints and every candidate from `i` to `k`
      fails them. */
  ghost predicate FirstSatisfying(u: Universe, t: Ty, ifaces: seq<Ty>, i: nat, k: int, fuel: nat)
    requires WellFormed(u) && IsGenericType(t)
  {
    i <= k < |ifaces| && Candidate(ifaces[k], t) &&
    SubSatisfies(u, ifaces[k], t, fuel).Done? && SubSatisfies(u, ifaces[k], t, fuel).verdict &&
    forall j | i <= j < k :: Candidate(ifaces[j], t) ==> SubSatisfies(u, ifaces[j], t, fuel) == Done(false, None)
  }

  /** The loop over `GetInterfaces` answers with the first candidate, in order, that satisfies
      the constraints; a rejection means every candidate failed them. */
  lemma {:induction false} SubInterfacesFirstMatch(u: Universe, s: Ty, t: Ty, ifaces: seq<Ty>, i: nat, fuel: nat)
    requires WellFormed(u) && IsGenericType(t) && i <= |ifaces|
    ensures var r := SubInterfaces(u, s, t, ifaces, i, fuel);
      r.Done? && r.verdict ==>
        exists k | i <= k < |ifaces| :: FirstSatisfying(u, t, ifaces, i, k, fuel) && SubSatisfies(u, ifaces[k], t, fuel) == r
    ensures var r := SubInterfaces(u, s, t, ifaces, i, fuel);
      r.Done? && !r.verdict ==>
        forall j | i <= j < |ifaces| :: Candidate(ifaces[j], t) ==> SubSatisfies(u, ifaces[j], t, fuel) == Done(false, None)
    decreases |ifaces| - i
  {
    var r := SubInterfaces(u, s, t, ifaces, i, fuel);
    if i < |ifaces| {
      var o := SubSatisfies(u, ifaces[i], t, fuel);
      if Candidate(ifaces[i], t) && (o.OutOfFuel? || o.verdict) {
        if o.Done? {
          assert FirstSatisfying(u, t, ifaces, i, i, fuel);
        }
      } else {
        SubInterfacesFirstMatch(u, s, t, ifaces, i + 1, fuel);
        assert r == SubInterfaces(u, s, t, ifaces, i + 1, fuel);
        if r.Done? && r.verdict {
          var k :| i + 1 <= k < |ifaces| && FirstSatisfying(u, t, ifaces, i + 1, k, fuel) && SubSatisfies(u, ifaces[k], t, fuel) == r;
          assert FirstSatisfying(u, t, ifaces, i, k, fuel);
        }
      }
    }
  }
}
