/**
 * When `SatisfiesTypeConstraints` succeeds and when it fails, position by position.
 * A position of the argument loop is *accepted* with one argument, or *refused*, by a
 * description that looks only at that position (its constraints, or its one recursive
 * query). The cacheless loops of module Reference are proved to succeed exactly when
 * every position is accepted, with the accepted arguments, and to reject exactly when
 * the first position that is not accepted is refused; otherwise they run out of fuel.
 * For the cached loops of module Substitution, the agreement lemmas of module
 * CacheSoundness carry over less. A completed cached answer is described at some fuel,
 * and a description at the loop's own fuel fixes the answer. A cached entry can
 * complete a query that the loop's own fuel would not, so neither description need
 * hold at that fuel.
 */
module ConstraintChecks {
  import opened Wrappers
  import opened TypeModel
  import opened Substitution
  import opened Reference
  import opened CacheSoundness

  /** Constraint `c` is met by argument `a`: it is `a`, it is natively assignable from `a`,
      or the recursive query, with one unit of fuel less, accepts `a`. */
  predicate ConstraintMet(u: Universe, a: Ty, c: Ty, fuel: nat)
    requires WellFormed(u)
  {
    c == a || u.assignableFrom(c, a) || (fuel > 0 && Sub(u, a, c, fuel - 1).Done? && Sub(u, a, c, fuel - 1).verdict)
  }

  /** Constraint `c` is refused: `a` is neither `c` nor natively assignable to it, and the
      recursive query completes with false. */
  predicate ConstraintRefused(u: Universe, a: Ty, c: Ty, fuel: nat)
    requires WellFormed(u)
  {
    c != a && !u.assignableFrom(c, a) && fuel > 0 && Sub(u, a, c, fuel - 1) == Done(false, None)
  }

  /** Every constraint from position `j` on is met. */
  predicate AllMet(u: Universe, a: Ty, cs: seq<Ty>, j: nat, fuel: nat)
    requires WellFormed(u) && j <= |cs|
  {
    forall k | j <= k < |cs| :: ConstraintMet(u, a, cs[k], fuel)
  }

  /** The first constraint from position `j` on that is not met is refused. */
  predicate FirstRefused(u: Universe, a: Ty, cs: seq<Ty>, j: nat, fuel: nat)
    requires WellFormed(u) && j <= |cs|
  {
    exists k | j <= k < |cs| :: ConstraintRefused(u, a, cs[k], fuel) &&
      forall m | j <= m < k :: ConstraintMet(u, a, cs[m], fuel)
  }

  /** The argument the loop takes at a position with candidate argument `a` and expected
      argument `e`, when it accepts the position: `a` itself at an open parameter whose
      constraints are all met, or at an equal or natively assignable concrete argument;
      otherwise the runtime type of a successful recursive query. */
  function Accepted(u: Universe, a: Ty, e: Ty, fuel: nat): (r: Option<Ty>)
    requires WellFormed(u)
    ensures r.Some? && PassThrough(u, a, e) ==> r.value == a
  {
    if IsGenericParameter(e) then (if AllMet(u, a, Constraints(u, e), 0, fuel) then Some(a) else None)
    else if e == a || u.assignableFrom(e, a) then Some(a)
    else if fuel > 0 && Sub(u, a, e, fuel - 1).Done? then Sub(u, a, e, fuel - 1).runtimeType
    else None
  }

  /** The position is refused: an open parameter with a refused constraint, or a concrete
      argument whose recursive query completes with false. */
  predicate Refused(u: Universe, a: Ty, e: Ty, fuel: nat)
    requires WellFormed(u)
  {
    if IsGenericParameter(e) then FirstRefused(u, a, Constraints(u, e), 0, fuel)
    else e != a && !u.assignableFrom(e, a) && fuel > 0 && Sub(u, a, e, fuel - 1) == Done(false, None)
  }

  /** Every position from `i` on is accepted, with the argument `xs` holds there. */
  predicate AllAccepted(u: Universe, cargs: seq<Ty>, targs: seq<Ty>, i: nat, xs: seq<Ty>, fuel: nat)
    requires WellFormed(u) && |cargs| == |targs| && i <= |cargs|
  {
    |xs| == |cargs| && forall k | i <= k < |cargs| :: Accepted(u, cargs[k], targs[k], fuel) == Some(xs[k])
  }

  /** The first position from `i` on that is not accepted is refused. */
  predicate FirstArgRefused(u: Universe, cargs: seq<Ty>, targs: seq<Ty>, i: nat, fuel: nat)
    requires WellFormed(u) && |cargs| == |targs| && i <= |cargs|
  {
    exists k | i <= k < |cargs| :: Refused(u, cargs[k], targs[k], fuel) &&
      forall m | i <= m < k :: Accepted(u, cargs[m], targs[m], fuel).Some?
  }

  /** A concrete position passes through exactly when it is accepted without any fuel, that
      is, without a recursive query; it then keeps the candidate's argument at every fuel. */
  lemma PassThroughWithoutQuery(u: Universe, a: Ty, e: Ty, fuel: nat)
    requires WellFormed(u)
    ensures !IsGenericParameter(e) ==> (PassThrough(u, a, e) <==> Accepted(u, a, e, 0).Some?)
    ensures !IsGenericParameter(e) && PassThrough(u, a, e) ==> Accepted(u, a, e, fuel) == Some(a)
    ensures !PassThrough(u, a, e) ==> !Refused(u, a, e, 0)
  {
  }

  // ---------------------------------------------------------------------------
  // The cacheless loops.
  // ---------------------------------------------------------------------------

  /** The constraint loop passes the argument through exactly when every constraint is met,
      and rejects exactly when the first constraint not met is refused. */
  lemma {:induction false} SubConstraintsDecides(u: Universe, a: Ty, cs: seq<Ty>, j: nat, fuel: nat)
    requires WellFormed(u) && j <= |cs|
    ensures SubConstraints(u, a, cs, j, fuel) == Proceed(a) <==> AllMet(u, a, cs, j, fuel)
    ensures SubConstraints(u, a, cs, j, fuel) == Reject <==> FirstRefused(u, a, cs, j, fuel)
    decreases |cs| - j
  {
    if j < |cs| {
      var r := SubConstraints(u, a, cs, j, fuel);
      var c := cs[j];
      if ConstraintMet(u, a, c, fuel) {
        SubConstraintsDecides(u, a, cs, j + 1, fuel);
        assert !ConstraintRefused(u, a, c, fuel);
        assert r == SubConstraints(u, a, cs, j + 1, fuel);
        assert AllMet(u, a, cs, j, fuel) <==> AllMet(u, a, cs, j + 1, fuel);
        if FirstRefused(u, a, cs, j, fuel) {
          var k :| j <= k < |cs| && ConstraintRefused(u, a, cs[k], fuel) &&
            forall m | j <= m < k :: ConstraintMet(u, a, cs[m], fuel);
          assert k > j;
          assert FirstRefused(u, a, cs, j + 1, fuel);
        }
        if FirstRefused(u, a, cs, j + 1, fuel) {
          var k :| j + 1 <= k < |cs| && ConstraintRefused(u, a, cs[k], fuel) &&
            forall m | j + 1 <= m < k :: ConstraintMet(u, a, cs[m], fuel);
          assert forall m | j <= m < k :: ConstraintMet(u, a, cs[m], fuel);
        }
      } else if ConstraintRefused(u, a, c, fuel) {
        assert r == Reject;
        assert !AllMet(u, a, cs, j, fuel);
        assert FirstRefused(u, a, cs, j, fuel) by {
          assert ConstraintRefused(u, a, cs[j], fuel);
        }
      } else {
        assert r == Exhausted;
        assert !AllMet(u, a, cs, j, fuel);
        assert !FirstRefused(u, a, cs, j, fuel) by {
          forall k | j <= k < |cs| && ConstraintRefused(u, a, cs[k], fuel)
            ensures !forall m | j <= m < k :: ConstraintMet(u, a, cs[m], fuel)
          {
            assert k != j;
          }
        }
      }
    }
  }

  /** One position of the argument loop: an accepted position continues with the accepted
      argument, a refused one rejects, and any other runs out of fuel. */
  lemma SubArgsStep(u: Universe, cargs: seq<Ty>, targs: seq<Ty>, i: nat, acc: seq<Ty>, fuel: nat)
    requires WellFormed(u) && |cargs| == |targs| && i < |cargs| && |acc| == i
    ensures var x := Accepted(u, cargs[i], targs[i], fuel);
      x.Some? ==>
        !Refused(u, cargs[i], targs[i], fuel) &&
        SubArgs(u, cargs, targs, i, acc, fuel) == SubArgs(u, cargs, targs, i + 1, acc + [x.value], fuel)
    ensures Refused(u, cargs[i], targs[i], fuel) ==> SubArgs(u, cargs, targs, i, acc, fuel) == Reject
    ensures Accepted(u, cargs[i], targs[i], fuel).None? && !Refused(u, cargs[i], targs[i], fuel) ==>
      SubArgs(u, cargs, targs, i, acc, fuel) == Exhausted
  {
    var a, e := cargs[i], targs[i];
    if IsGenericParameter(e) {
      SubConstraintsDecides(u, a, Constraints(u, e), 0, fuel);
    } else if fuel > 0 {
      var o := Sub(u, a, e, fuel - 1);
      assert Coherent(o);
    }
  }

  /** Extending the accepted arguments by one position. */
  lemma AcceptedPrefixStep(xs: seq<Ty>, acc: seq<Ty>, x: Ty, i: nat)
    requires i < |xs| && |acc| == i
    ensures xs[..i + 1] == acc + [x] <==> xs[..i] == acc && xs[i] == x
  {
    assert xs[..i + 1] == xs[..i] + [xs[i]];
    if xs[..i + 1] == acc + [x] {
      assert xs[..i] == (acc + [x])[..i];
      assert xs[i] == xs[..i + 1][i];
    }
  }

  /** The argument loop succeeds with `xs` exactly when `xs` extends the arguments taken so far
      and every remaining position is accepted with the argument `xs` holds there. */
  lemma {:induction false} SubArgsProceeds(u: Universe, cargs: seq<Ty>, targs: seq<Ty>, i: nat, acc: seq<Ty>, fuel: nat, xs: seq<Ty>)
    requires WellFormed(u) && |cargs| == |targs| && i <= |cargs| && |acc| == i
    ensures SubArgs(u, cargs, targs, i, acc, fuel) == Proceed(xs) <==>
      AllAccepted(u, cargs, targs, i, xs, fuel) && xs[..i] == acc
    decreases |cargs| - i
  {
    if i == |cargs| {
      assert |xs| == |cargs| ==> (xs[..i] == acc <==> xs == acc);
    } else {
      SubArgsStep(u, cargs, targs, i, acc, fuel);
      var x := Accepted(u, cargs[i], targs[i], fuel);
      if x.Some? {
        SubArgsProceeds(u, cargs, targs, i + 1, acc + [x.value], fuel, xs);
        if |xs| == |cargs| {
          AcceptedPrefixStep(xs, acc, x.value, i);
        }
      } else {
        assert !AllAccepted(u, cargs, targs, i, xs, fuel);
      }
    }
  }

  /** The argument loop rejects exactly when the first remaining position that is not
      accepted is refused. */
  lemma {:induction false} SubArgsRejects(u: Universe, cargs: seq<Ty>, targs: seq<Ty>, i: nat, acc: seq<Ty>, fuel: nat)
    requires WellFormed(u) && |cargs| == |targs| && i <= |cargs| && |acc| == i
    ensures SubArgs(u, cargs, targs, i, acc, fuel) == Reject <==> FirstArgRefused(u, cargs, targs, i, fuel)
    decreases |cargs| - i
  {
    if i < |cargs| {
      SubArgsStep(u, cargs, targs, i, acc, fuel);
      var x := Accepted(u, cargs[i], targs[i], fuel);
      if x.Some? {
        SubArgsRejects(u, cargs, targs, i + 1, acc + [x.value], fuel);
        if FirstArgRefused(u, cargs, targs, i, fuel) {
          var k :| i <= k < |cargs| && Refused(u, cargs[k], targs[k], fuel) &&
            forall m | i <= m < k :: Accepted(u, cargs[m], targs[m], fuel).Some?;
          assert k != i;
          assert FirstArgRefused(u, cargs, targs, i + 1, fuel);
        }
        if FirstArgRefused(u, cargs, targs, i + 1, fuel) {
          var k :| i + 1 <= k < |cargs| && Refused(u, cargs[k], targs[k], fuel) &&
            forall m | i + 1 <= m < k :: Accepted(u, cargs[m], targs[m], fuel).Some?;
          assert forall m | i <= m < k :: Accepted(u, cargs[m], targs[m], fuel).Some?;
        }
      } else if Refused(u, cargs[i], targs[i], fuel) {
        assert FirstArgRefused(u, cargs, targs, i, fuel);
      } else {
        assert !FirstArgRefused(u, cargs, targs, i, fuel) by {
          forall k | i <= k < |cargs| && Refused(u, cargs[k], targs[k], fuel)
            ensures !forall m | i <= m < k :: Accepted(u, cargs[m], targs[m], fuel).Some?
          {
            assert k != i;
          }
        }
      }
    }
  }

  /** `SatisfiesTypeConstraints` without a cache: a candidate whose argument count differs from
      the target's fails; otherwise it succeeds with `rt` exactly when `rt` is the target's
      definition applied to arguments every position accepts, and fails exactly when the first
      position not accepted is refused. */
  lemma SubSatisfiesDecides(u: Universe, cand: Ty, t: Ty, fuel: nat, rt: Ty)
    requires WellFormed(u) && IsGenericType(t)
    ensures |GenericArguments(cand)| != |t.args| ==> SubSatisfies(u, cand, t, fuel) == Done(false, None)
    ensures SubSatisfies(u, cand, t, fuel) == Done(true, Some(rt)) <==>
      |GenericArguments(cand)| == |t.args| && rt.Con? && rt.name == t.name &&
      AllAccepted(u, GenericArguments(cand), t.args, 0, rt.args, fuel)
    ensures SubSatisfies(u, cand, t, fuel) == Done(false, None) <==>
      |GenericArguments(cand)| != |t.args| || FirstArgRefused(u, GenericArguments(cand), t.args, 0, fuel)
  {
    var cargs := GenericArguments(cand);
    if |cargs| == |t.args| && rt.Con? {
      SubArgsProceeds(u, cargs, t.args, 0, [], fuel, rt.args);
    }
    if |cargs| == |t.args| {
      SubArgsRejects(u, cargs, t.args, 0, [], fuel);
    }
  }

  // ---------------------------------------------------------------------------
  // The cached loops, from a consistent cache. A completed cached answer is the reference
  // answer at some fuel, so its description holds at that fuel; a description that holds
  // at the loop's own fuel fixes the cached answer.
  // ---------------------------------------------------------------------------

  /** The cached constraint loop passes the argument through only when every constraint is
      met, and rejects only when the first constraint not met is refused; either description
      at its own fuel decides its answer. */
  lemma MeetConstraintsDecides(u: Universe, c: Cache, a: Ty, cs: seq<Ty>, j: nat, fuel: nat)
    requires WellFormed(u) && Consistent(u, c) && j <= |cs|
    ensures MeetConstraints(u, c, a, cs, j, fuel).0.Proceed? ==> exists g: nat :: AllMet(u, a, cs, j, g)
    ensures MeetConstraints(u, c, a, cs, j, fuel).0 == Reject ==> exists g: nat :: FirstRefused(u, a, cs, j, g)
    ensures AllMet(u, a, cs, j, fuel) ==> MeetConstraints(u, c, a, cs, j, fuel).0 == Proceed(a)
    ensures FirstRefused(u, a, cs, j, fuel) ==> MeetConstraints(u, c, a, cs, j, fuel).0 == Reject
  {
    MeetConstraintsAgrees(u, c, a, cs, j, fuel);
    SubConstraintsDecides(u, a, cs, j, fuel);
    var r := MeetConstraints(u, c, a, cs, j, fuel).0;
    if r != Exhausted {
      var g: nat :| SubConstraints(u, a, cs, j, g) == r;
      SubConstraintsDecides(u, a, cs, j, g);
    }
  }

  /** The cached argument loop succeeds with `xs` only when `xs` extends the arguments taken
      so far and every remaining position is accepted with the argument `xs` holds there, and
      rejects only when the first remaining position not accepted is refused; either
      description at its own fuel decides its answer. */
  lemma SubstituteArgsDecides(u: Universe, c: Cache, cargs: seq<Ty>, targs: seq<Ty>, i: nat, acc: seq<Ty>, fuel: nat, xs: seq<Ty>)
    requires WellFormed(u) && Consistent(u, c) && |cargs| == |targs| && i <= |cargs| && |acc| == i
    ensures SubstituteArgs(u, c, cargs, targs, i, acc, fuel).0 == Proceed(xs) ==>
      |xs| == |cargs| && xs[..i] == acc && exists g: nat :: AllAccepted(u, cargs, targs, i, xs, g)
    ensures SubstituteArgs(u, c, cargs, targs, i, acc, fuel).0 == Reject ==>
      exists g: nat :: FirstArgRefused(u, cargs, targs, i, g)
    ensures AllAccepted(u, cargs, targs, i, xs, fuel) && xs[..i] == acc ==>
      SubstituteArgs(u, c, cargs, targs, i, acc, fuel).0 == Proceed(xs)
    ensures FirstArgRefused(u, cargs, targs, i, fuel) ==> SubstituteArgs(u, c, cargs, targs, i, acc, fuel).0 == Reject
  {
    SubstituteArgsAgrees(u, c, cargs, targs, i, acc, fuel);
    SubArgsProceeds(u, cargs, targs, i, acc, fuel, xs);
    SubArgsRejects(u, cargs, targs, i, acc, fuel);
    var r := SubstituteArgs(u, c, cargs, targs, i, acc, fuel).0;
    if r != Exhausted {
      var g: nat :| SubArgs(u, cargs, targs, i, acc, g) == r;
      SubArgsProceeds(u, cargs, targs, i, acc, g, xs);
      SubArgsRejects(u, cargs, targs, i, acc, g);
    }
  }

  /** `SatisfiesTypeConstraints` with the cache: it succeeds with `rt` only when `rt` is the
      target's definition applied to arguments every position accepts, and fails only on an
      argument count that differs from the target's or when the first position not accepted is
      refused; either description at its own fuel decides its answer. */
  lemma SatisfiesDecides(u: Universe, c: Cache, cand: Ty, t: Ty, fuel: nat, rt: Ty)
    requires WellFormed(u) && Consistent(u, c) && IsGenericType(t)
    ensures Satisfies(u, c, cand, t, fuel).0 == Done(true, Some(rt)) ==>
      |GenericArguments(cand)| == |t.args| && rt.Con? && rt.name == t.name &&
      exists g: nat :: AllAccepted(u, GenericArguments(cand), t.args, 0, rt.args, g)
    ensures Satisfies(u, c, cand, t, fuel).0 == Done(false, None) ==>
      |GenericArguments(cand)| != |t.args| || exists g: nat :: FirstArgRefused(u, GenericArguments(cand), t.args, 0, g)
    ensures (|GenericArguments(cand)| == |t.args| && rt.Con? && rt.name == t.name &&
             AllAccepted(u, GenericArguments(cand), t.args, 0, rt.args, fuel)) ==>
      Satisfies(u, c, cand, t, fuel).0 == Done(true, Some(rt))
    ensures |GenericArguments(cand)| == |t.args| && FirstArgRefused(u, GenericArguments(cand), t.args, 0, fuel) ==>
      Satisfies(u, c, cand, t, fuel).0 == Done(false, None)
  {
    SatisfiesAgrees(u, c, cand, t, fuel);
    SubSatisfiesDecides(u, cand, t, fuel, rt);
    var r := Satisfies(u, c, cand, t, fuel).0;
    if r.Done? {
      var g: nat :| SubSatisfies(u, cand, t, g) == r;
      SubSatisfiesDecides(u, cand, t, g, rt);
    }
  }
}
