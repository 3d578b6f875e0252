/**
 * `DateTimeRange` of TestTypes.cs: a `Range<DateTime>` whose bounds default to
 * `DateTime.MinValue` and `DateTime.MaxValue`, with a duration, containment of a
 * date in `[Gte, Lt)`, intersection, and its own equality and comparison. A
 * `DateTime` is its tick count and a `TimeSpan` a signed 64-bit tick count.
 */
module DateTimeRanges {
  import opened Wrappers
  import opened Ranges

  /** The ticks of `DateTime.MinValue` and `DateTime.MaxValue`. */
  const MinTicks: int := 0
  const MaxTicks: int := 3_155_378_975_999_999_999

  type DateTime = t: int | MinTicks <= t <= MaxTicks
  type TimeSpan = d: int | -0x8000_0000_0000_0000 <= d < 0x8000_0000_0000_0000

  /** `DateTime.CompareTo`. */
  function CompareTicks(a: DateTime, b: DateTime): (r: int)
    ensures r in {-1, 0, 1} && (r < 0 <==> a < b) && (r == 0 <==> a == b)
  {
    if a < b then -1 else if a == b then 0 else 1
  }

  type DateTimeRange = Range<DateTime>

  /** `DateTimeRange(DateTime? gte = null, DateTime? lt = null)`: a missing lower bound is
      `MinValue`, a missing upper bound `MaxValue`, and the base constructor orders them. */
  function FromBounds(gte: Option<DateTime>, lt: Option<DateTime>): (r: DateTimeRange)
    ensures r.gte <= r.lt
    ensures var g, l := if gte.Some? then gte.value else MinTicks, if lt.Some? then lt.value else MaxTicks;
      multiset{r.gte, r.lt} == multiset{g, l}
  {
    CompareTicksIsValid();
    New<DateTime>(CompareTicks, if gte.Some? then gte.value else MinTicks, if lt.Some? then lt.value else MaxTicks)
  }

  /** `DateTimeRange()` chains to `this(null, null)`. */
  function Default(): DateTimeRange {
    FromBounds(None, None)
  }

  /** `DateTimeRange(DateTime reference)`: both bounds are the reference. */
  function FromReference(reference: DateTime): DateTimeRange {
    FromBounds(Some(reference), Some(reference))
  }

  /** `DateTimeRange(DateTime reference, TimeSpan duration)`: the bounds are the reference
      and `reference + duration`; that sum raises `ArgumentOutOfRangeException` when it
      leaves the range of `DateTime`. */
  function FromDuration(reference: DateTime, duration: TimeSpan): (r: Result<DateTimeRange>)
    ensures r.Err? <==> !(MinTicks <= reference + duration <= MaxTicks)
  {
    var end := reference + duration;
    if MinTicks <= end <= MaxTicks then Ok(FromBounds(Some(reference), Some(end)))
    else Err("ArgumentOutOfRangeException")
  }

  /** `Duration`: `Lt - Gte`. */
  function Duration(r: DateTimeRange): TimeSpan {
    r.lt - r.gte
  }

  /** `Equals(DateTimeRange other)`: false on null, otherwise equality of both bounds. */
  predicate Equals(a: DateTimeRange, other: Option<DateTimeRange>) {
    other.Some? && a.gte == other.value.gte && a.lt == other.value.lt
  }

  /** What `Equals(object)` may be handed. */
  datatype Object = Null | BoxedRange(range: DateTimeRange) | OtherObject

  /** `Equals(object obj)`: `Equals(obj as DateTimeRange)`, where `as` gives null for
      anything that is not a `DateTimeRange`. */
  predicate EqualsObject(a: DateTimeRange, obj: Object) {
    Equals(a, if obj.BoxedRange? then Some(obj.range) else None)
  }

  /** `Intersects(DateTimeRange other)`. */
  predicate Intersects(a: DateTimeRange, b: DateTimeRange) {
    a.gte < b.lt && b.gte < a.lt
  }

  /** `Contains(DateTime date)`. */
  predicate Contains(a: DateTimeRange, date: DateTime) {
    a.gte <= date && date < a.lt
  }

  /** `CompareTo(DateTimeRange other)`: the nested conditional of the source. */
  function CompareTo(a: DateTimeRange, b: DateTimeRange): (r: int)
    ensures r in {-1, 0, 1}
    ensures r == 0 <==> Equals(a, Some(b))
  {
    if a.gte < b.gte then -1
    else if a.gte == b.gte then (if a.lt < b.lt then -1 else if a.lt == b.lt then 0 else 1)
    else 1
  }

  lemma CompareTicksIsValid()
    ensures OrderComparer(CompareTicks)
  {
  }

  /** The default range runs from `MinValue` to `MaxValue`, which it does not contain. */
  lemma DefaultIsEverything(d: DateTime)
    ensures Default() == Range(MinTicks, MaxTicks)
    ensures Contains(Default(), d) <==> d != MaxTicks
  {
  }

  /** A range made from one reference date is empty. */
  lemma ReferenceRangeIsEmpty(reference: DateTime, d: DateTime)
    ensures Duration(FromReference(reference)) == 0
    ensures !Contains(FromReference(reference), d)
  {
  }

  /** A duration range has the reference and its end as bounds, in order, and its
      `Duration` is the absolute value of the duration, never negative. */
  lemma DurationRange(reference: DateTime, duration: TimeSpan)
    requires MinTicks <= reference + duration <= MaxTicks
    ensures var r := FromDuration(reference, duration).value;
      multiset{r.gte, r.lt} == multiset{reference, reference + duration} && r.gte <= r.lt &&
      Duration(r) == (if duration < 0 then -duration else duration)
  {
  }

  /** An ordered range has a non-negative duration, and it is zero exactly when the range
      contains no date. */
  lemma DurationZeroIffEmpty(r: DateTimeRange)
    requires r.gte <= r.lt
    ensures Duration(r) >= 0
    ensures Duration(r) == 0 <==> forall d: DateTime :: !Contains(r, d)
  {
    if Duration(r) > 0 {
      assert Contains(r, r.gte);
    }
  }

  /** Containment is half-open: the upper bound is never contained, the lower one exactly
      when the range is not empty. */
  lemma ContainsIsHalfOpen(r: DateTimeRange)
    ensures !Contains(r, r.lt)
    ensures Contains(r, r.gte) <==> r.gte < r.lt
  {
  }

  /** `Intersects` is symmetric. */
  lemma IntersectsIsSymmetric(a: DateTimeRange, b: DateTimeRange)
    ensures Intersects(a, b) <==> Intersects(b, a)
  {
  }

  /** A range intersects itself exactly when it is not empty. */
  lemma IntersectsItself(a: DateTimeRange)
    ensures Intersects(a, a) <==> a.gte < a.lt
  {
  }

  /** For ordered ranges, intersecting means sharing a date. (An empty range `[d, d)`
      still intersects every range that contains `d` in its interior.) */
  lemma IntersectsIffSharedDate(a: DateTimeRange, b: DateTimeRange)
    requires a.gte <= a.lt && b.gte <= b.lt
    ensures Intersects(a, b) && a.gte < a.lt && b.gte < b.lt <==> exists d: DateTime :: Contains(a, d) && Contains(b, d)
  {
    if Intersects(a, b) && a.gte < a.lt && b.gte < b.lt {
      var d: DateTime := if a.gte < b.gte then b.gte else a.gte;
      assert Contains(a, d) && Contains(b, d);
    }
  }

  /** The empty range at `d` inside a larger range intersects it. */
  lemma EmptyRangeMayIntersect(d: DateTime, larger: DateTimeRange)
    requires larger.gte < d < larger.lt
    ensures Intersects(FromReference(d), larger)
    ensures forall x: DateTime :: !Contains(FromReference(d), x)
  {
  }

  /** `DateTimeRange.CompareTo` gives exactly what the base class's `CompareTo` gives, so
      the two comparisons `DateTimeRange` inherits and declares agree; both are the
      lexicographic order on `(Gte, Lt)`. */
  lemma CompareToAgreesWithBase(a: DateTimeRange, b: DateTimeRange)
    ensures Ranges.CompareTo(CompareTicks, a, Some(b)) == Ok(CompareTo(a, b))
    ensures CompareTo(a, b) == LexSign(CompareTicks, a, b)
  {
    CompareTicksIsValid();
    CompareToIsLexicographic(CompareTicks, a, b);
  }

  /** `Equals` of the declared overload agrees with the base class's on non-null ranges,
      and is false, where the base class raises, on null. */
  lemma EqualsAgreesWithBase(a: DateTimeRange, other: Option<DateTimeRange>)
    ensures other.Some? ==> Ranges.Equals(CompareTicks, a, other) == Ok(Equals(a, other))
    ensures other.None? ==> !Equals(a, other) && Ranges.Equals(CompareTicks, a, other).Err?
  {
  }

  /** `Equals(object)` is false of null and of anything but a `DateTimeRange`, and is
      `Equals` on a `DateTimeRange`. */
  lemma EqualsObjectOnlyForRanges(a: DateTimeRange, b: DateTimeRange)
    ensures !EqualsObject(a, Null) && !EqualsObject(a, OtherObject)
    ensures EqualsObject(a, BoxedRange(b)) <==> a == b
  {
  }
}
