/**
 * The substitution cache never changes an answer. A cache is consistent
 * when each of its entries is the answer the cacheless checker of module
 * Reference gives for that pair. From a consistent cache the cached checker
 * leaves a consistent cache behind, every completed answer is the reference
 * answer for some fuel, and whenever the reference does not run out it gives
 * the cached checker's answer at the same fuel. Hence a query's completed
 * answer does not depend on what earlier queries cached, and clearing the
 * cache changes no completed answer. (At one fuel, a cached entry may let a
 * query complete that would run out of fuel without it.)
 */
module CacheSoundness {
  import opened Wrappers
  import opened TypeModel
  import opened Substitution
  import opened Reference
  import SubstitutionFacts

  /** The reference checker, given enough fuel, answers `v` for the pair. */
  ghost predicate Decided(u: Universe, s: Ty, t: Ty, v: Option<Ty>)
    requires WellFormed(u)
  {
    exists g: nat :: Sub(u, s, t, g) == Done(v.Some?, v)
  }

  /** Every entry of the cache is the reference answer for its pair. */
  ghost predicate Consistent(u: Universe, c: Cache)
    requires WellFormed(u)
  {
    forall k | k in c :: Decided(u, k.0, k.1, c[k])
  }

  /** The source's own construction fails the constraints at fuel `g`, if it is tried at all. */
  ghost predicate OwnFails(u: Universe, s: Ty, t: Ty, g: nat)
    requires WellFormed(u) && IsGenericType(t)
  {
    IsGenericType(s) && Definition(s) == Definition(t) ==> SubSatisfies(u, s, t, g) == Done(false, None)
  }

  /** Every candidate interface before position `i` fails the constraints at fuel `g`. */
  ghost predicate PrefixFails(u: Universe, t: Ty, ifaces: seq<Ty>, i: nat, g: nat)
    requires WellFormed(u) && IsGenericType(t) && i <= |ifaces|
  {
    forall j | 0 <= j < i :: Candidate(ifaces[j], t) ==> SubSatisfies(u, ifaces[j], t, g) == Done(false, None)
  }

  lemma FailsMonoLe(u: Universe, s: Ty, t: Ty, ifaces: seq<Ty>, i: nat, g: nat, more: nat)
    requires WellFormed(u) && IsGenericType(t) && i <= |ifaces| && g <= more
    requires OwnFails(u, s, t, g) && PrefixFails(u, t, ifaces, i, g)
    ensures OwnFails(u, s, t, more) && PrefixFails(u, t, ifaces, i, more)
  {
    if IsGenericType(s) && Definition(s) == Definition(t) {
      SubSatisfiesMonoLe(u, s, t, g, more);
    }
    forall j | 0 <= j < i && Candidate(ifaces[j], t)
      ensures SubSatisfies(u, ifaces[j], t, more) == Done(false, None)
    {
      SubSatisfiesMonoLe(u, ifaces[j], t, g, more);
    }
  }

  /** Skipping a failed prefix of the interfaces. */
  lemma {:induction false} SkipFailedPrefix(u: Universe, s: Ty, t: Ty, ifaces: seq<Ty>, i: nat, g: nat)
    requires WellFormed(u) && IsGenericType(t) && i <= |ifaces| && PrefixFails(u, t, ifaces, i, g)
    ensures SubInterfaces(u, s, t, ifaces, 0, g) == SubInterfaces(u, s, t, ifaces, i, g)
    decreases i
  {
    if i > 0 {
      assert PrefixFails(u, t, ifaces, i - 1, g);
      SkipFailedPrefix(u, s, t, ifaces, i - 1, g);
    }
  }

  /** Once the source's own construction and a prefix of its interfaces failed, the
      reference answer for an interface target is that of the remaining interfaces. */
  lemma ViaRemainingInterfaces(u: Universe, s: Ty, t: Ty, i: nat, g: nat)
    requires WellFormed(u) && IsGenericType(t) && IsInterface(u, t) && s != t
    requires i <= |Interfaces(u, s)| && OwnFails(u, s, t, g) && PrefixFails(u, t, Interfaces(u, s), i, g)
    ensures Sub(u, s, t, g) == SubInterfaces(u, s, t, Interfaces(u, s), i, g)
  {
    SkipFailedPrefix(u, s, t, Interfaces(u, s), i, g);
  }

  /** `IsSubtypeOf` agrees with the reference. */
  lemma {:induction false} CheckAgrees(u: Universe, c: Cache, s: Option<Ty>, t: Option<Ty>, fuel: nat)
    requires WellFormed(u) && Consistent(u, c)
    ensures Consistent(u, Check(u, c, s, t, fuel).1)
    ensures s.Some? && t.Some? && Check(u, c, s, t, fuel).0.Done? ==>
      exists g: nat :: Sub(u, s.value, t.value, g) == Check(u, c, s, t, fuel).0
    ensures s.Some? && t.Some? && Sub(u, s.value, t.value, fuel) != OutOfFuel ==>
      Check(u, c, s, t, fuel).0 == Sub(u, s.value, t.value, fuel)
    decreases fuel, 6, 0
  {
    if s.Some? && t.Some? {
      var a, e := s.value, t.value;
      if a == e {
        assert Sub(u, a, e, 0) == Check(u, c, s, t, fuel).0;
      } else if (a, e) in c {
        var v := c[(a, e)];
        assert Decided(u, a, e, v);
        var g: nat :| Sub(u, a, e, g) == Done(v.Some?, v);
        if Sub(u, a, e, fuel) != OutOfFuel {
          SubDeterministic(u, a, e, g, fuel);
        }
      } else {
        AnalyseAgrees(u, c, a, e, fuel);
      }
    }
  }

  lemma {:induction false} AnalyseAgrees(u: Universe, c: Cache, s: Ty, t: Ty, fuel: nat)
    requires WellFormed(u) && Consistent(u, c) && s != t && (s, t) !in c
    ensures Consistent(u, Analyse(u, c, s, t, fuel).1)
    ensures Analyse(u, c, s, t, fuel).0.Done? ==> exists g: nat :: Sub(u, s, t, g) == Analyse(u, c, s, t, fuel).0
    ensures Sub(u, s, t, fuel) != OutOfFuel ==> Analyse(u, c, s, t, fuel).0 == Sub(u, s, t, fuel)
    decreases fuel, 5, 0
  {
    var r := Analyse(u, c, s, t, fuel);
    if !IsGenericType(t) {
      assert Check(u, c, Some(s), Some(t), fuel) == r;
      SubstitutionFacts.NonGenericTarget(u, c, s, t, fuel);
      assert Sub(u, s, t, 0) == r.0;
    } else if !IsInterface(u, t) {
      assert Sub(u, s, t, 0) == r.0;
      assert r.1 == c[(s, t) := r.0.runtimeType];
    } else {
      InterfaceBranchAgrees(u, c, s, t, fuel);
    }
  }

  lemma {:induction false} InterfaceBranchAgrees(u: Universe, c: Cache, s: Ty, t: Ty, fuel: nat)
    requires WellFormed(u) && Consistent(u, c) && s != t && IsGenericType(t) && IsInterface(u, t)
    ensures Consistent(u, InterfaceBranch(u, c, s, t, fuel).1)
    ensures InterfaceBranch(u, c, s, t, fuel).0.Done? ==>
      exists g: nat :: Sub(u, s, t, g) == InterfaceBranch(u, c, s, t, fuel).0
    ensures Sub(u, s, t, fuel) != OutOfFuel ==> InterfaceBranch(u, c, s, t, fuel).0 == Sub(u, s, t, fuel)
    decreases fuel, 4, 0
  {
    var key := (s, t);
    var tried := IsGenericType(s) && Definition(s) == Definition(t);
    var own := if tried then Satisfies(u, c, s, t, fuel) else (Done(false, None), c);
    if tried {
      SatisfiesAgrees(u, c, s, t, fuel);
    }
    if own.0.OutOfFuel? {
    } else if own.0.verdict {
      var g: nat :| SubSatisfies(u, s, t, g) == own.0;
      assert Sub(u, s, t, g) == own.0;
      assert Decided(u, s, t, own.0.runtimeType);
    } else {
      var g0: nat := 0;
      if tried {
        g0 :| SubSatisfies(u, s, t, g0) == own.0;
      }
      assert OwnFails(u, s, t, g0);
      SearchInterfacesAgrees(u, own.1, s, t, Interfaces(u, s), 0, fuel, g0);
    }
  }

  lemma {:induction false} SearchInterfacesAgrees(u: Universe, c: Cache, s: Ty, t: Ty, ifaces: seq<Ty>, i: nat, fuel: nat, g0: nat)
    requires WellFormed(u) && Consistent(u, c) && s != t && IsGenericType(t) && IsInterface(u, t)
    requires ifaces == Interfaces(u, s) && i <= |ifaces|
    requires OwnFails(u, s, t, g0) && PrefixFails(u, t, ifaces, i, g0)
    ensures Consistent(u, SearchInterfaces(u, c, s, t, ifaces, i, fuel).1)
    ensures SearchInterfaces(u, c, s, t, ifaces, i, fuel).0.Done? ==>
      exists g: nat :: Sub(u, s, t, g) == SearchInterfaces(u, c, s, t, ifaces, i, fuel).0
    ensures SubInterfaces(u, s, t, ifaces, i, fuel) != OutOfFuel ==>
      SearchInterfaces(u, c, s, t, ifaces, i, fuel).0 == SubInterfaces(u, s, t, ifaces, i, fuel)
    decreases fuel, 3, |ifaces| - i
  {
    var r := SearchInterfaces(u, c, s, t, ifaces, i, fuel);
    if i == |ifaces| {
      ViaRemainingInterfaces(u, s, t, i, g0);
      assert Sub(u, s, t, g0) == r.0;
      assert Decided(u, s, t, None);
    } else if !Candidate(ifaces[i], t) {
      assert PrefixFails(u, t, ifaces, i + 1, g0);
      SearchInterfacesAgrees(u, c, s, t, ifaces, i + 1, fuel, g0);
    } else {
      CandidateAgrees(u, c, s, t, ifaces, i, fuel, g0);
    }
  }

  /** A candidate interface: its constraint check decides, or the search moves on. */
  lemma {:induction false} CandidateAgrees(u: Universe, c: Cache, s: Ty, t: Ty, ifaces: seq<Ty>, i: nat, fuel: nat, g0: nat)
    requires WellFormed(u) && Consistent(u, c) && s != t && IsGenericType(t) && IsInterface(u, t)
    requires ifaces == Interfaces(u, s) && i < |ifaces| && Candidate(ifaces[i], t)
    requires OwnFails(u, s, t, g0) && PrefixFails(u, t, ifaces, i, g0)
    ensures Consistent(u, SearchInterfaces(u, c, s, t, ifaces, i, fuel).1)
    ensures SearchInterfaces(u, c, s, t, ifaces, i, fuel).0.Done? ==>
      exists g: nat :: Sub(u, s, t, g) == SearchInterfaces(u, c, s, t, ifaces, i, fuel).0
    ensures SubInterfaces(u, s, t, ifaces, i, fuel) != OutOfFuel ==>
      SearchInterfaces(u, c, s, t, ifaces, i, fuel).0 == SubInterfaces(u, s, t, ifaces, i, fuel)
    decreases fuel, 3, |ifaces| - i, 0
  {
    var r := SearchInterfaces(u, c, s, t, ifaces, i, fuel);
    var (o, c2) := Satisfies(u, c, ifaces[i], t, fuel);
    SatisfiesAgrees(u, c, ifaces[i], t, fuel);
    if o.Done? {
      var g1: nat :| SubSatisfies(u, ifaces[i], t, g1) == o;
      var g := if g0 <= g1 then g1 else g0;
      FailsMonoLe(u, s, t, ifaces, i, g0, g);
      SubSatisfiesMonoLe(u, ifaces[i], t, g1, g);
      if o.verdict {
        ViaRemainingInterfaces(u, s, t, i, g);
        assert Sub(u, s, t, g) == r.0;
        assert Decided(u, s, t, o.runtimeType);
      } else {
        assert PrefixFails(u, t, ifaces, i + 1, g);
        SearchInterfacesAgrees(u, c2, s, t, ifaces, i + 1, fuel, g);
      }
    }
  }

  /** `SatisfiesTypeConstraints` agrees with the reference. */
  lemma {:induction false} SatisfiesAgrees(u: Universe, c: Cache, cand: Ty, t: Ty, fuel: nat)
    requires WellFormed(u) && Consistent(u, c) && IsGenericType(t)
    ensures Consistent(u, Satisfies(u, c, cand, t, fuel).1)
    ensures Satisfies(u, c, cand, t, fuel).0.Done? ==>
      exists g: nat :: SubSatisfies(u, cand, t, g) == Satisfies(u, c, cand, t, fuel).0
    ensures SubSatisfies(u, cand, t, fuel) != OutOfFuel ==>
      Satisfies(u, c, cand, t, fuel).0 == SubSatisfies(u, cand, t, fuel)
    decreases fuel, 2, 0
  {
    var cargs := GenericArguments(cand);
    if |cargs| != |t.args| {
      assert SubSatisfies(u, cand, t, 0) == Satisfies(u, c, cand, t, fuel).0;
    } else {
      SubstituteArgsAgrees(u, c, cargs, t.args, 0, [], fuel);
      var a := SubstituteArgs(u, c, cargs, t.args, 0, [], fuel).0;
      if a != Exhausted {
        var g: nat :| SubArgs(u, cargs, t.args, 0, [], g) == a;
        assert SubSatisfies(u, cand, t, g) == Satisfies(u, c, cand, t, fuel).0;
      }
    }
  }

  lemma {:induction false} SubstituteArgsAgrees(u: Universe, c: Cache, cargs: seq<Ty>, targs: seq<Ty>, i: nat, acc: seq<Ty>, fuel: nat)
    requires WellFormed(u) && Consistent(u, c) && |cargs| == |targs| && i <= |cargs| && |acc| == i
    ensures Consistent(u, SubstituteArgs(u, c, cargs, targs, i, acc, fuel).1)
    ensures SubstituteArgs(u, c, cargs, targs, i, acc, fuel).0 != Exhausted ==>
      exists g: nat :: SubArgs(u, cargs, targs, i, acc, g) == SubstituteArgs(u, c, cargs, targs, i, acc, fuel).0
    ensures SubArgs(u, cargs, targs, i, acc, fuel) != Exhausted ==>
      SubstituteArgs(u, c, cargs, targs, i, acc, fuel).0 == SubArgs(u, cargs, targs, i, acc, fuel)
    decreases fuel, 1, |cargs| - i
  {
    var r := SubstituteArgs(u, c, cargs, targs, i, acc, fuel);
    if i == |cargs| {
      assert SubArgs(u, cargs, targs, i, acc, 0) == r.0;
    } else if IsGenericParameter(targs[i]) {
      ParameterArgAgrees(u, c, cargs, targs, i, acc, fuel);
    } else if targs[i] == cargs[i] || u.assignableFrom(targs[i], cargs[i]) {
      var a := cargs[i];
      SubstituteArgsAgrees(u, c, cargs, targs, i + 1, acc + [a], fuel);
      if r.0 != Exhausted {
        var g: nat :| SubArgs(u, cargs, targs, i + 1, acc + [a], g) == r.0;
        assert SubArgs(u, cargs, targs, i, acc, g) == r.0;
      }
    } else if fuel > 0 {
      QueriedArgAgrees(u, c, cargs, targs, i, acc, fuel);
    }
  }

  /** A concrete position that needs a recursive query. */
  lemma {:induction false} QueriedArgAgrees(u: Universe, c: Cache, cargs: seq<Ty>, targs: seq<Ty>, i: nat, acc: seq<Ty>, fuel: nat)
    requires WellFormed(u) && Consistent(u, c) && |cargs| == |targs| && i < |cargs| && |acc| == i && fuel > 0
    requires !IsGenericParameter(targs[i]) && targs[i] != cargs[i] && !u.assignableFrom(targs[i], cargs[i])
    ensures Consistent(u, SubstituteArgs(u, c, cargs, targs, i, acc, fuel).1)
    ensures SubstituteArgs(u, c, cargs, targs, i, acc, fuel).0 != Exhausted ==>
      exists g: nat :: SubArgs(u, cargs, targs, i, acc, g) == SubstituteArgs(u, c, cargs, targs, i, acc, fuel).0
    ensures SubArgs(u, cargs, targs, i, acc, fuel) != Exhausted ==>
      SubstituteArgs(u, c, cargs, targs, i, acc, fuel).0 == SubArgs(u, cargs, targs, i, acc, fuel)
    decreases fuel, 1, |cargs| - i, 1
  {
    var a := cargs[i];
    var e := targs[i];
    var o := Check(u, c, Some(a), Some(e), fuel - 1).0;
    CheckAgrees(u, c, Some(a), Some(e), fuel - 1);
    if o.Done? {
      var g1: nat :| Sub(u, a, e, g1) == o;
      if !o.verdict {
        assert SubArgs(u, cargs, targs, i, acc, g1 + 1) == SubstituteArgs(u, c, cargs, targs, i, acc, fuel).0;
      } else {
        AcceptedArgAgrees(u, c, cargs, targs, i, acc, fuel);
      }
    }
  }

  /** A concrete position whose recursive query succeeded: the loop goes on with its answer. */
  lemma {:induction false} AcceptedArgAgrees(u: Universe, c: Cache, cargs: seq<Ty>, targs: seq<Ty>, i: nat, acc: seq<Ty>, fuel: nat)
    requires WellFormed(u) && Consistent(u, c) && |cargs| == |targs| && i < |cargs| && |acc| == i && fuel > 0
    requires !IsGenericParameter(targs[i]) && targs[i] != cargs[i] && !u.assignableFrom(targs[i], cargs[i])
    requires Check(u, c, Some(cargs[i]), Some(targs[i]), fuel - 1).0.Done?
    requires Check(u, c, Some(cargs[i]), Some(targs[i]), fuel - 1).0.verdict
    ensures Consistent(u, SubstituteArgs(u, c, cargs, targs, i, acc, fuel).1)
    ensures SubstituteArgs(u, c, cargs, targs, i, acc, fuel).0 != Exhausted ==>
      exists g: nat :: SubArgs(u, cargs, targs, i, acc, g) == SubstituteArgs(u, c, cargs, targs, i, acc, fuel).0
    ensures SubArgs(u, cargs, targs, i, acc, fuel) != Exhausted ==>
      SubstituteArgs(u, c, cargs, targs, i, acc, fuel).0 == SubArgs(u, cargs, targs, i, acc, fuel)
    decreases fuel, 1, |cargs| - i, 0
  {
    var r := SubstituteArgs(u, c, cargs, targs, i, acc, fuel);
    var a := cargs[i];
    var e := targs[i];
    var (o, c2) := Check(u, c, Some(a), Some(e), fuel - 1);
    CheckAgrees(u, c, Some(a), Some(e), fuel - 1);
    var g1: nat :| Sub(u, a, e, g1) == o;
    var acc' := acc + [o.runtimeType.value];
    assert r == SubstituteArgs(u, c2, cargs, targs, i + 1, acc', fuel);
    SubstituteArgsAgrees(u, c2, cargs, targs, i + 1, acc', fuel);
    SubArgsQueryStep(u, cargs, targs, i, acc, fuel);
    if r.0 != Exhausted {
      var g2: nat :| SubArgs(u, cargs, targs, i + 1, acc', g2) == r.0;
      SubArgsAfterAccepted(u, cargs, targs, i, acc, g1, g2);
    }
  }

  /** One step of the reference argument loop at a position that needs a recursive query. */
  lemma SubArgsQueryStep(u: Universe, cargs: seq<Ty>, targs: seq<Ty>, i: nat, acc: seq<Ty>, g: nat)
    requires WellFormed(u) && |cargs| == |targs| && i < |cargs| && |acc| == i && g > 0
    requires !IsGenericParameter(targs[i]) && targs[i] != cargs[i] && !u.assignableFrom(targs[i], cargs[i])
    ensures var o := Sub(u, cargs[i], targs[i], g - 1);
      if o.OutOfFuel? then SubArgs(u, cargs, targs, i, acc, g) == Exhausted
      else if !o.verdict then SubArgs(u, cargs, targs, i, acc, g) == Reject
      else SubArgs(u, cargs, targs, i, acc, g) == SubArgs(u, cargs, targs, i + 1, acc + [o.runtimeType.value], g)
  {
  }

  /** An accepted query at fuel `g1` followed by the rest of the loop at fuel `g2` is the
      reference loop at the larger of the two. */
  lemma SubArgsAfterAccepted(u: Universe, cargs: seq<Ty>, targs: seq<Ty>, i: nat, acc: seq<Ty>, g1: nat, g2: nat)
    requires WellFormed(u) && |cargs| == |targs| && i < |cargs| && |acc| == i
    requires !IsGenericParameter(targs[i]) && targs[i] != cargs[i] && !u.assignableFrom(targs[i], cargs[i])
    requires Sub(u, cargs[i], targs[i], g1).Done? && Sub(u, cargs[i], targs[i], g1).verdict
    requires SubArgs(u, cargs, targs, i + 1, acc + [Sub(u, cargs[i], targs[i], g1).runtimeType.value], g2) != Exhausted
    ensures var rest := SubArgs(u, cargs, targs, i + 1, acc + [Sub(u, cargs[i], targs[i], g1).runtimeType.value], g2);
      exists g: nat :: SubArgs(u, cargs, targs, i, acc, g) == rest
  {
    var acc' := acc + [Sub(u, cargs[i], targs[i], g1).runtimeType.value];
    var g := if g1 + 1 <= g2 then g2 else g1 + 1;
    SubMonoLe(u, cargs[i], targs[i], g1, g - 1);
    SubArgsMonoLe(u, cargs, targs, i + 1, acc', g2, g);
    SubArgsQueryStep(u, cargs, targs, i, acc, g);
  }

  /** An open-parameter position, checked against the parameter's constraints. */
  lemma {:induction false} ParameterArgAgrees(u: Universe, c: Cache, cargs: seq<Ty>, targs: seq<Ty>, i: nat, acc: seq<Ty>, fuel: nat)
    requires WellFormed(u) && Consistent(u, c) && |cargs| == |targs| && i < |cargs| && |acc| == i
    requires IsGenericParameter(targs[i])
    ensures Consistent(u, SubstituteArgs(u, c, cargs, targs, i, acc, fuel).1)
    ensures SubstituteArgs(u, c, cargs, targs, i, acc, fuel).0 != Exhausted ==>
      exists g: nat :: SubArgs(u, cargs, targs, i, acc, g) == SubstituteArgs(u, c, cargs, targs, i, acc, fuel).0
    ensures SubArgs(u, cargs, targs, i, acc, fuel) != Exhausted ==>
      SubstituteArgs(u, c, cargs, targs, i, acc, fuel).0 == SubArgs(u, cargs, targs, i, acc, fuel)
    decreases fuel, 1, |cargs| - i, 0
  {
    var r := SubstituteArgs(u, c, cargs, targs, i, acc, fuel);
    var a := cargs[i];
    var cs := Constraints(u, targs[i]);
    var (o, c2) := MeetConstraints(u, c, a, cs, 0, fuel);
    MeetConstraintsAgrees(u, c, a, cs, 0, fuel);
    if o != Exhausted {
      var g1: nat :| SubConstraints(u, a, cs, 0, g1) == o;
      if o.Reject? {
        assert SubArgs(u, cargs, targs, i, acc, g1) == r.0;
      } else {
        SubstituteArgsAgrees(u, c2, cargs, targs, i + 1, acc + [a], fuel);
        if r.0 != Exhausted {
          var g2: nat :| SubArgs(u, cargs, targs, i + 1, acc + [a], g2) == r.0;
          var g := if g1 <= g2 then g2 else g1;
          SubConstraintsMonoLe(u, a, cs, 0, g1, g);
          SubArgsMonoLe(u, cargs, targs, i + 1, acc + [a], g2, g);
          assert SubArgs(u, cargs, targs, i, acc, g) == r.0;
        }
      }
    }
  }

  lemma {:induction false} MeetConstraintsAgrees(u: Universe, c: Cache, a: Ty, cs: seq<Ty>, j: nat, fuel: nat)
    requires WellFormed(u) && Consistent(u, c) && j <= |cs|
    ensures Consistent(u, MeetConstraints(u, c, a, cs, j, fuel).1)
    ensures MeetConstraints(u, c, a, cs, j, fuel).0 != Exhausted ==>
      exists g: nat :: SubConstraints(u, a, cs, j, g) == MeetConstraints(u, c, a, cs, j, fuel).0
    ensures SubConstraints(u, a, cs, j, fuel) != Exhausted ==>
      MeetConstraints(u, c, a, cs, j, fuel).0 == SubConstraints(u, a, cs, j, fuel)
    decreases fuel, 0, |cs| - j
  {
    var r := MeetConstraints(u, c, a, cs, j, fuel);
    if j == |cs| {
      assert SubConstraints(u, a, cs, j, 0) == r.0;
    } else if cs[j] == a || u.assignableFrom(cs[j], a) {
      MeetConstraintsAgrees(u, c, a, cs, j + 1, fuel);
      if r.0 != Exhausted {
        var g: nat :| SubConstraints(u, a, cs, j + 1, g) == r.0;
        assert SubConstraints(u, a, cs, j, g) == r.0;
      }
    } else if fuel > 0 {
      QueriedConstraintAgrees(u, c, a, cs, j, fuel);
    }
  }

  /** A constraint that needs a recursive query. */
  lemma {:induction false} QueriedConstraintAgrees(u: Universe, c: Cache, a: Ty, cs: seq<Ty>, j: nat, fuel: nat)
    requires WellFormed(u) && Consistent(u, c) && j < |cs| && fuel > 0
    requires cs[j] != a && !u.assignableFrom(cs[j], a)
    ensures Consistent(u, MeetConstraints(u, c, a, cs, j, fuel).1)
    ensures MeetConstraints(u, c, a, cs, j, fuel).0 != Exhausted ==>
      exists g: nat :: SubConstraints(u, a, cs, j, g) == MeetConstraints(u, c, a, cs, j, fuel).0
    ensures SubConstraints(u, a, cs, j, fuel) != Exhausted ==>
      MeetConstraints(u, c, a, cs, j, fuel).0 == SubConstraints(u, a, cs, j, fuel)
    decreases fuel, 0, |cs| - j, 1
  {
    var o := Check(u, c, Some(a), Some(cs[j]), fuel - 1).0;
    CheckAgrees(u, c, Some(a), Some(cs[j]), fuel - 1);
    if o.Done? {
      var g1: nat :| Sub(u, a, cs[j], g1) == o;
      if !o.verdict {
        assert SubConstraints(u, a, cs, j, g1 + 1) == MeetConstraints(u, c, a, cs, j, fuel).0;
      } else {
        AcceptedConstraintAgrees(u, c, a, cs, j, fuel);
      }
    }
  }

  /** A constraint whose recursive query succeeded: the loop goes on with the next one. */
  lemma {:induction false} AcceptedConstraintAgrees(u: Universe, c: Cache, a: Ty, cs: seq<Ty>, j: nat, fuel: nat)
    requires WellFormed(u) && Consistent(u, c) && j < |cs| && fuel > 0
    requires cs[j] != a && !u.assignableFrom(cs[j], a)
    requires Check(u, c, Some(a), Some(cs[j]), fuel - 1).0.Done?
    requires Check(u, c, Some(a), Some(cs[j]), fuel - 1).0.verdict
    ensures Consistent(u, MeetConstraints(u, c, a, cs, j, fuel).1)
    ensures MeetConstraints(u, c, a, cs, j, fuel).0 != Exhausted ==>
      exists g: nat :: SubConstraints(u, a, cs, j, g) == MeetConstraints(u, c, a, cs, j, fuel).0
    ensures SubConstraints(u, a, cs, j, fuel) != Exhausted ==>
      MeetConstraints(u, c, a, cs, j, fuel).0 == SubConstraints(u, a, cs, j, fuel)
    decreases fuel, 0, |cs| - j, 0
  {
    var r := MeetConstraints(u, c, a, cs, j, fuel);
    var (o, c2) := Check(u, c, Some(a), Some(cs[j]), fuel - 1);
    CheckAgrees(u, c, Some(a), Some(cs[j]), fuel - 1);
    var g1: nat :| Sub(u, a, cs[j], g1) == o;
    assert r == MeetConstraints(u, c2, a, cs, j + 1, fuel);
    MeetConstraintsAgrees(u, c2, a, cs, j + 1, fuel);
    SubConstraintsQueryStep(u, a, cs, j, fuel);
    if r.0 != Exhausted {
      var g2: nat :| SubConstraints(u, a, cs, j + 1, g2) == r.0;
      SubConstraintsAfterAccepted(u, a, cs, j, g1, g2);
    }
  }

  /** One step of the reference constraint loop at a constraint that needs a recursive query. */
  lemma SubConstraintsQueryStep(u: Universe, a: Ty, cs: seq<Ty>, j: nat, g: nat)
    requires WellFormed(u) && j < |cs| && g > 0 && cs[j] != a && !u.assignableFrom(cs[j], a)
    ensures var o := Sub(u, a, cs[j], g - 1);
      if o.OutOfFuel? then SubConstraints(u, a, cs, j, g) == Exhausted
      else if !o.verdict then SubConstraints(u, a, cs, j, g) == Reject
      else SubConstraints(u, a, cs, j, g) == SubConstraints(u, a, cs, j + 1, g)
  {
  }

  /** An accepted query at fuel `g1` followed by the remaining constraints at fuel `g2` is the
      reference loop at the larger of the two. */
  lemma SubConstraintsAfterAccepted(u: Universe, a: Ty, cs: seq<Ty>, j: nat, g1: nat, g2: nat)
    requires WellFormed(u) && j < |cs| && cs[j] != a && !u.assignableFrom(cs[j], a)
    requires Sub(u, a, cs[j], g1).Done? && Sub(u, a, cs[j], g1).verdict
    requires SubConstraints(u, a, cs, j + 1, g2) != Exhausted
    ensures exists g: nat :: SubConstraints(u, a, cs, j, g) == SubConstraints(u, a, cs, j + 1, g2)
  {
    var g := if g1 + 1 <= g2 then g2 else g1 + 1;
    SubMonoLe(u, a, cs[j], g1, g - 1);
    SubConstraintsMonoLe(u, a, cs, j + 1, g2, g);
    SubConstraintsQueryStep(u, a, cs, j, g);
  }

  // ---------------------------------------------------------------------------
  // Consequences.
  // ---------------------------------------------------------------------------

  /** The empty cache, as created and as left by `ClearCache`, is consistent. */
  lemma EmptyCacheConsistent(u: Universe)
    requires WellFormed(u)
    ensures Consistent(u, map[])
  {
  }

  /** A completed answer does not depend on the cache it started from, nor on the fuel. */
  lemma CacheIndependent(u: Universe, c1: Cache, c2: Cache, s: Option<Ty>, t: Option<Ty>, f1: nat, f2: nat)
    requires WellFormed(u) && Consistent(u, c1) && Consistent(u, c2)
    requires Check(u, c1, s, t, f1).0.Done? && Check(u, c2, s, t, f2).0.Done?
    ensures Check(u, c1, s, t, f1).0 == Check(u, c2, s, t, f2).0
  {
    CheckAgrees(u, c1, s, t, f1);
    CheckAgrees(u, c2, s, t, f2);
    if s.Some? && t.Some? {
      var g1: nat :| Sub(u, s.value, t.value, g1) == Check(u, c1, s, t, f1).0;
      var g2: nat :| Sub(u, s.value, t.value, g2) == Check(u, c2, s, t, f2).0;
      SubDeterministic(u, s.value, t.value, g1, g2);
    }
  }

  /** Clearing the cache changes no completed answer. */
  lemma ClearCacheKeepsAnswers(u: Universe, c: Cache, s: Option<Ty>, t: Option<Ty>, fuel: nat)
    requires WellFormed(u) && Consistent(u, c)
    requires Check(u, c, s, t, fuel).0.Done? && Check(u, map[], s, t, fuel).0.Done?
    ensures Check(u, map[], s, t, fuel).0 == Check(u, c, s, t, fuel).0
  {
    EmptyCacheConsistent(u);
    CacheIndependent(u, map[], c, s, t, fuel, fuel);
  }
}
