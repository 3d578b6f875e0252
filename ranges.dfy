/**
 * Range.cs: immutable half-open ranges `[Gte, Lt)` over a type that is both comparable
 * and equatable. The constructor puts the bounds in order; ranges compare
 * lexicographically on `(Gte, Lt)`, and two ranges are equal when they compare as 0.
 * `T.CompareTo` is the parameter `cmp`; `T.Equals` is Dafny equality.
 */
module Ranges {
  import opened Wrappers

  /** What `IComparable<T>` together with `IEquatable<T>` is expected to provide:
      comparison is 0 exactly on equal values, and swapping the operands flips the sign. */
  ghost predicate ValidComparer<T(!new)>(cmp: (T, T) -> int) {
    (forall a, b :: cmp(a, b) == 0 <==> a == b) &&
    (forall a, b :: cmp(a, b) < 0 <==> cmp(b, a) > 0)
  }

  /** A valid comparer whose "less than" is transitive. */
  ghost predicate OrderComparer<T(!new)>(cmp: (T, T) -> int) {
    ValidComparer(cmp) &&
    forall a, b, c :: cmp(a, b) < 0 && cmp(b, c) < 0 ==> cmp(a, c) < 0
  }

  datatype Range<T> = Range(gte: T, lt: T)

  /** The constructor `Range(gte, lt)`: the two bounds are kept, swapped when `gte` comes
      after `lt`, so the lower bound is never after the upper one. */
  function New<T(!new)>(cmp: (T, T) -> int, gte: T, lt: T): (r: Range<T>)
    ensures multiset{r.gte, r.lt} == multiset{gte, lt}
    ensures ValidComparer(cmp) ==> cmp(r.gte, r.lt) <= 0
    ensures cmp(gte, lt) <= 0 ==> r.gte == gte
  {
    if cmp(gte, lt) > 0 then Range(lt, gte) else Range(gte, lt)
  }

  /** The sign of an integer. */
  function Sign(x: int): (r: int)
    ensures r in {-1, 0, 1} && (r < 0 <==> x < 0) && (r == 0 <==> x == 0)
  {
    if x < 0 then -1 else if x == 0 then 0 else 1
  }

  /** The lexicographic order on `(Gte, Lt)` as a sign: an independent reference for
      `CompareTo`. */
  function LexSign<T>(cmp: (T, T) -> int, a: Range<T>, b: Range<T>): int {
    if cmp(a.gte, b.gte) != 0 then Sign(cmp(a.gte, b.gte)) else Sign(cmp(a.lt, b.lt))
  }

  /** `CompareTo(Range<T> other)`; a null `other` raises `ArgumentException`. */
  function CompareTo<T(==)>(cmp: (T, T) -> int, a: Range<T>, other: Option<Range<T>>): (r: Result<int>)
    ensures r.Err? <==> other.None?
    ensures r.Ok? ==> r.value in {-1, 0, 1}
    ensures r == Ok(0) <==> other == Some(a)
  {
    if other.None? then Err("ArgumentException")
    else
      var b := other.value;
      if a.gte == b.gte && a.lt == b.lt then Ok(0)
      else if cmp(a.gte, b.gte) < 0 then Ok(-1)
      else if cmp(a.gte, b.gte) == 0 && cmp(a.lt, b.lt) < 0 then Ok(-1)
      else Ok(1)
  }

  /** `Equals(Range<T> other)`: `CompareTo(other) == 0`, so a null `other` raises too. */
  function Equals<T(==)>(cmp: (T, T) -> int, a: Range<T>, other: Option<Range<T>>): (r: Result<bool>)
    ensures r.Err? <==> other.None?
  {
    match CompareTo(cmp, a, other)
    case Err(e) => Err(e)
    case Ok(v) => Ok(v == 0)
  }

  /** With a valid comparer, `CompareTo` is the lexicographic order on `(Gte, Lt)`. */
  lemma CompareToIsLexicographic<T(!new)>(cmp: (T, T) -> int, a: Range<T>, b: Range<T>)
    requires ValidComparer(cmp)
    ensures CompareTo(cmp, a, Some(b)) == Ok(LexSign(cmp, a, b))
  {
    if a == b {
      assert cmp(a.gte, b.gte) == 0 && cmp(a.lt, b.lt) == 0;
    } else if cmp(a.gte, b.gte) == 0 {
      assert a.gte == b.gte && a.lt != b.lt;
      assert cmp(a.lt, b.lt) != 0;
    }
  }

  /** `a.CompareTo(b) == -b.CompareTo(a)`. */
  lemma CompareToIsAntisymmetric<T(!new)>(cmp: (T, T) -> int, a: Range<T>, b: Range<T>)
    requires ValidComparer(cmp)
    ensures CompareTo(cmp, a, Some(b)).value == -CompareTo(cmp, b, Some(a)).value
  {
    CompareToIsLexicographic(cmp, a, b);
    CompareToIsLexicographic(cmp, b, a);
    var g, l := cmp(a.gte, b.gte), cmp(a.lt, b.lt);
    assert (g == 0) == (cmp(b.gte, a.gte) == 0);
    assert (g < 0) == (cmp(b.gte, a.gte) > 0);
    assert (l < 0) == (cmp(b.lt, a.lt) > 0);
    assert (l == 0) == (cmp(b.lt, a.lt) == 0);
  }

  /** With a transitive comparer, "precedes" on ranges is transitive. */
  lemma CompareToIsTransitive<T(!new)>(cmp: (T, T) -> int, a: Range<T>, b: Range<T>, c: Range<T>)
    requires OrderComparer(cmp)
    requires CompareTo(cmp, a, Some(b)) == Ok(-1) && CompareTo(cmp, b, Some(c)) == Ok(-1)
    ensures CompareTo(cmp, a, Some(c)) == Ok(-1)
  {
    CompareToIsLexicographic(cmp, a, b);
    CompareToIsLexicographic(cmp, b, c);
    CompareToIsLexicographic(cmp, a, c);
    if cmp(a.gte, b.gte) == 0 {
      assert a.gte == b.gte;
    } else if cmp(b.gte, c.gte) == 0 {
      assert b.gte == c.gte;
    } else {
      assert cmp(a.gte, c.gte) < 0;
    }
  }

  /** `Equals` on a non-null range is equality of both bounds; on null it raises. */
  lemma EqualsIsBoundEquality<T>(cmp: (T, T) -> int, a: Range<T>, other: Option<Range<T>>)
    ensures other.Some? ==> Equals(cmp, a, other) == Ok(a.gte == other.value.gte && a.lt == other.value.lt)
    ensures other.None? ==> Equals(cmp, a, other) == Err("ArgumentException")
  {
  }
}
