/**
 * The type relationships that TypeVarianceTests.cs exercises, as a concrete universe,
 * and the answers the checker gives on it. The declarations follow
 * FunkyTypesHierarchy.cs, Range.cs and TestTypes.cs, and the parts of the base
 * library they touch (`List<T>` and its collection interfaces, `IComparable<T>`,
 * `IEquatable<T>`, `Exception`). Native assignability is a finite subset of the
 * platform's: identity, `Object`, and the listed pairs. It holds every assignable pair
 * the checker consults natively while answering the queries below; pairs it never
 * consults there, such as (`List<int>`, `IEnumerable<int>`), are not listed.
 */
module Scenarios {
  import opened Wrappers
  import opened TypeModel
  import opened Substitution
  import opened SubstitutionFacts

  function Plain(n: string): Ty { Con(n, []) }
  function Of(n: string, a: Ty): Ty { Con(n, [a]) }

  const Object := Plain("Object")
  const Int32 := Plain("Int32")
  const DateTime := Plain("DateTime")
  const Exception := Plain("Exception")
  const ISerializable := Plain("ISerializable")
  const IEntityType := Plain("IEntityType")
  const EntityType := Plain("EntityType")
  const SpecificEntityType := Plain("SpecificEntityType")
  const IRange := Plain("IRange")
  const DateTimeRange := Plain("DateTimeRange")

  function Class(level: nat, base: Ty, interfaces: seq<Ty>): Decl {
    Decl(false, level, Some(base), interfaces, [])
  }

  function Interface(interfaces: seq<Ty>, constraints: seq<seq<Ty>>): Decl {
    Decl(true, 0, None, interfaces, constraints)
  }

  const Decls: map<string, Decl> := map[
    "Object" := Decl(false, 0, None, [], []),
    "Int32" := Class(1, Object, []),
    "DateTime" := Class(1, Object, [Of("IComparable", DateTime), Of("IEquatable", DateTime)]),
    "Exception" := Class(1, Object, [ISerializable]),
    "ISerializable" := Interface([], []),
    "IEntityType" := Interface([], []),
    // extends IEntityType; its parameter must be an IEntityType
    "IGenericEntityType" := Interface([IEntityType], [[IEntityType]]),
    "EntityType" := Class(1, Object, [IEntityType]),
    "SpecificEntityType" := Class(1, Object, [Of("IGenericEntityType", EntityType), IEntityType]),
    "IRange" := Interface([], []),
    "IComparable" := Interface([], [[]]),
    "IEquatable" := Interface([], [[]]),
    // marked IRange, comparable and equatable to its own construction; its parameter
    // must be comparable and equatable to itself
    "Range" := Decl(false, 1, Some(Object),
      [IRange, Of("IComparable", Of("Range", Param("Range", 0))), Of("IEquatable", Of("Range", Param("Range", 0)))],
      [[Of("IComparable", Param("Range", 0)), Of("IEquatable", Param("Range", 0))]]),
    // derives from Range<DateTime> and is comparable and equatable to itself
    "DateTimeRange" := Class(2, Of("Range", DateTime),
      [IRange, Of("IComparable", Of("Range", DateTime)), Of("IEquatable", Of("Range", DateTime)),
       Of("IComparable", DateTimeRange), Of("IEquatable", DateTimeRange)]),
    "IEnumerable" := Interface([], [[]]),
    "ICollection" := Interface([Of("IEnumerable", Param("ICollection", 0))], [[]]),
    "IList" := Interface([Of("ICollection", Param("IList", 0)), Of("IEnumerable", Param("IList", 0))], [[]]),
    "List" := Decl(false, 1, Some(Object),
      [Of("IList", Param("List", 0)), Of("ICollection", Param("List", 0)), Of("IEnumerable", Param("List", 0))],
      [[]])
  ]

  /** Some (source, target) pairs the platform assigns natively, besides identity and
      `Object`: those the queries below consult, not the whole relation. */
  const NativePairs: set<(Ty, Ty)> := {
    (EntityType, IEntityType),
    (SpecificEntityType, Of("IGenericEntityType", EntityType)), (SpecificEntityType, IEntityType),
    (Exception, ISerializable),
    (Of("Range", DateTime), IRange),
    (DateTimeRange, Of("Range", DateTime)), (DateTimeRange, IRange),
    (DateTimeRange, Of("IComparable", Of("Range", DateTime))), (DateTimeRange, Of("IEquatable", Of("Range", DateTime))),
    (DateTimeRange, Of("IComparable", DateTimeRange)), (DateTimeRange, Of("IEquatable", DateTimeRange))
  }

  function Native(target: Ty, source: Ty): bool {
    target == source || target == Object || (source, target) in NativePairs
  }

  const U: Universe := Universe(Decls, Native)

  lemma SpecificIsNotNativelyGenericOfIEntity()
    ensures !Native(Of("IGenericEntityType", IEntityType), SpecificEntityType)
  {
  }

  lemma RangeIsNotNativelyDateTimeRange()
    ensures !Native(DateTimeRange, Of("Range", DateTime))
  {
  }

  lemma ExceptionIsNotNativelyIEntityType()
    ensures !Native(IEntityType, Exception)
  {
  }

  lemma UniverseIsWellFormed()
    ensures WellFormed(U)
  {
    forall n | n in U.decls ensures BaseBelow(U, n) {
    }
  }

  /** Substituting into a type with no open parameter changes nothing. */
  lemma {:induction false} SubstClosed(t: Ty, owner: string, actuals: seq<Ty>)
    requires !ContainsGenericParameters(t)
    ensures Subst(t, owner, actuals) == t
  {
    match t
    case Con(n, ts) =>
      forall k | 0 <= k < |ts| ensures Subst(ts[k], owner, actuals) == ts[k] {
        SubstClosed(ts[k], owner, actuals);
      }
  }

  /** Substitution goes inside a one-argument construction. */
  lemma SubstOf(n: string, x: Ty, owner: string, actuals: seq<Ty>)
    ensures Subst(Of(n, x), owner, actuals) == Of(n, Subst(x, owner, actuals))
  {
    assert Subst(Of(n, x), owner, actuals).args == [Subst(x, owner, actuals)];
  }

  /** The answer to one query on a fresh cache. */
  function Query(s: Ty, t: Ty, fuel: nat): Outcome {
    UniverseIsWellFormed();
    Check(U, map[], Some(s), Some(t), fuel).0
  }

  const RangeOfDateTime := Of("Range", DateTime)

  /** `Object` stands in for itself. */
  lemma ObjectIsObject()
    ensures Query(Object, Object, 0) == Done(true, Some(Object))
  {
  }

  /** A class is its own runtime type against a non-generic interface it implements. */
  lemma EntityTypeIsIEntityType()
    ensures Query(EntityType, IEntityType, 1) == Done(true, Some(EntityType))
  {
    UniverseIsWellFormed();
    NonGenericTarget(U, map[], EntityType, IEntityType, 1);
  }

  /** A class target is found on the base chain, and the chain element is returned. */
  lemma DateTimeRangeIsRangeOfDateTime()
    ensures Query(DateTimeRange, Of("Range", DateTime), 1) == Done(true, Some(Of("Range", DateTime)))
  {
    UniverseIsWellFormed();
    var t := Of("Range", DateTime);
    SubstClosed(t, "DateTimeRange", []);
    assert ChainMatch(U, DateTimeRange, Definition(t)) == Some(t);
  }

  // One step of the checker at a time, for any universe: the scenarios below chain
  // these instead of unfolding the whole computation at once.

  /** A non-candidate interface is skipped. */
  lemma SearchSkips(u: Universe, c: Cache, s: Ty, t: Ty, ifaces: seq<Ty>, i: nat, fuel: nat)
    requires WellFormed(u) && i < |ifaces| && !Candidate(ifaces[i], t)
    ensures SearchInterfaces(u, c, s, t, ifaces, i, fuel) == SearchInterfaces(u, c, s, t, ifaces, i + 1, fuel)
  {
  }

  /** A candidate that satisfies the constraints ends the search; its answer is recorded. */
  lemma SearchFinds(u: Universe, c: Cache, s: Ty, t: Ty, ifaces: seq<Ty>, i: nat, fuel: nat, x: Ty, c': Cache)
    requires WellFormed(u) && i < |ifaces| && Candidate(ifaces[i], t)
    requires Satisfies(u, c, ifaces[i], t, fuel) == (Done(true, Some(x)), c')
    ensures SearchInterfaces(u, c, s, t, ifaces, i, fuel) == (Done(true, Some(x)), TryAdd(c', (s, t), Some(x)))
  {
  }

  /** A candidate that fails moves the search on, with the cache it left behind. */
  lemma SearchMovesOn(u: Universe, c: Cache, s: Ty, t: Ty, ifaces: seq<Ty>, i: nat, fuel: nat, c': Cache)
    requires WellFormed(u) && i < |ifaces| && Candidate(ifaces[i], t)
    requires Satisfies(u, c, ifaces[i], t, fuel) == (Done(false, None), c')
    ensures SearchInterfaces(u, c, s, t, ifaces, i, fuel) == SearchInterfaces(u, c', s, t, ifaces, i + 1, fuel)
  {
  }

  /** One concrete argument equal to, or natively assignable to, the target's passes
      through. */
  lemma SatisfiedNatively(u: Universe, c: Cache, d: string, a: Ty, t: Ty, fuel: nat)
    requires WellFormed(u) && IsGenericType(t) && |t.args| == 1 && !IsGenericParameter(t.args[0])
    requires t.args[0] == a || u.assignableFrom(t.args[0], a)
    ensures Satisfies(u, c, Con(d, [a]), t, fuel) == (Done(true, Some(Con(t.name, [a]))), c)
  {
    assert [] + [a] == [a];
    assert SubstituteArgs(u, c, [a], t.args, 1, [a], fuel) == (Proceed([a]), c);
    assert SubstituteArgs(u, c, [a], t.args, 0, [], fuel) == (Proceed([a]), c);
  }

  /** One concrete argument that needs a recursive query takes what that query resolves
      to; if the query fails, so does the candidate. */
  lemma SatisfiedRecursively(u: Universe, c: Cache, d: string, a: Ty, t: Ty, fuel: nat, o: Outcome, c': Cache)
    requires WellFormed(u) && IsGenericType(t) && |t.args| == 1 && !IsGenericParameter(t.args[0])
    requires t.args[0] != a && !u.assignableFrom(t.args[0], a) && fuel > 0
    requires Check(u, c, Some(a), Some(t.args[0]), fuel - 1) == (o, c') && o.Done?
    ensures Satisfies(u, c, Con(d, [a]), t, fuel) ==
      if o.verdict then (Done(true, Some(Con(t.name, [o.runtimeType.value]))), c') else (Done(false, None), c')
  {
    if o.verdict {
      var x := o.runtimeType.value;
      assert [] + [x] == [x];
      assert SubstituteArgs(u, c', [a], t.args, 1, [x], fuel) == (Proceed([x]), c');
      assert SubstituteArgs(u, c, [a], t.args, 0, [], fuel) == (Proceed([x]), c');
    } else {
      assert SubstituteArgs(u, c, [a], t.args, 0, [], fuel) == (Reject, c');
    }
  }

  /** One open parameter whose constraints the argument meets natively passes through. */
  lemma SatisfiedAtParameter(u: Universe, c: Cache, d: string, a: Ty, t: Ty, fuel: nat)
    requires WellFormed(u) && IsGenericType(t) && |t.args| == 1 && IsGenericParameter(t.args[0])
    requires forall k | 0 <= k < |Constraints(u, t.args[0])| ::
      Constraints(u, t.args[0])[k] == a || u.assignableFrom(Constraints(u, t.args[0])[k], a)
    ensures Satisfies(u, c, Con(d, [a]), t, fuel) == (Done(true, Some(Con(t.name, [a]))), c)
  {
    var cs := Constraints(u, t.args[0]);
    NativeConstraintsMet(u, c, a, cs, 0, fuel);
    assert [] + [a] == [a];
    assert SubstituteArgs(u, c, [a], t.args, 1, [a], fuel) == (Proceed([a]), c);
    assert SubstituteArgs(u, c, [a], t.args, 0, [], fuel) == (Proceed([a]), c);
  }

  lemma {:induction false} NativeConstraintsMet(u: Universe, c: Cache, a: Ty, cs: seq<Ty>, j: nat, fuel: nat)
    requires WellFormed(u) && j <= |cs|
    requires forall k | j <= k < |cs| :: cs[k] == a || u.assignableFrom(cs[k], a)
    ensures MeetConstraints(u, c, a, cs, j, fuel) == (Proceed(a), c)
    decreases |cs| - j
  {
    if j < |cs| {
      NativeConstraintsMet(u, c, a, cs, j + 1, fuel);
    }
  }

  /** The interfaces of `DateTimeRange`, in declaration order. */
  function DateTimeRangeInterfaces(): seq<Ty> {
    [IRange, Of("IComparable", RangeOfDateTime), Of("IEquatable", RangeOfDateTime),
     Of("IComparable", DateTimeRange), Of("IEquatable", DateTimeRange)]
  }

  lemma InterfacesOfDateTimeRange()
    ensures Interfaces(U, DateTimeRange) == DateTimeRangeInterfaces()
  {
    var ifaces := DateTimeRangeInterfaces();
    forall k | 0 <= k < |ifaces| ensures Subst(ifaces[k], "DateTimeRange", []) == ifaces[k] {
      SubstClosed(ifaces[k], "DateTimeRange", []);
    }
  }

  lemma InterfacesOfRangeOfDateTime()
    ensures Interfaces(U, RangeOfDateTime) ==
      [IRange, Of("IComparable", RangeOfDateTime), Of("IEquatable", RangeOfDateTime)]
  {
    var p := Param("Range", 0);
    SubstClosed(IRange, "Range", [DateTime]);
    SubstOf("Range", p, "Range", [DateTime]);
    SubstOf("IComparable", Of("Range", p), "Range", [DateTime]);
    SubstOf("IEquatable", Of("Range", p), "Range", [DateTime]);
  }

  lemma InterfacesOfList(a: Ty)
    ensures Interfaces(U, Of("List", a)) == [Of("IList", a), Of("ICollection", a), Of("IEnumerable", a)]
  {
    var p := Param("List", 0);
    SubstOf("IList", p, "List", [a]);
    SubstOf("ICollection", p, "List", [a]);
    SubstOf("IEnumerable", p, "List", [a]);
  }

  lemma InterfacesOfSpecificEntityType()
    ensures Interfaces(U, SpecificEntityType) == [GenericOfEntity, IEntityType]
  {
    SubstClosed(GenericOfEntity, "SpecificEntityType", []);
    SubstClosed(IEntityType, "SpecificEntityType", []);
  }

  const GenericOfEntity := Of("IGenericEntityType", EntityType)
  const GenericOfIEntity := Of("IGenericEntityType", IEntityType)

  /** `Range<DateTime>` implements `IComparable<Range<DateTime>>`. */
  lemma RangeIsComparableToRange()
    ensures Query(RangeOfDateTime, Of("IComparable", RangeOfDateTime), 1) ==
      Done(true, Some(Of("IComparable", RangeOfDateTime)))
  {
    UniverseIsWellFormed();
    var s, t := RangeOfDateTime, Of("IComparable", RangeOfDateTime);
    var ifaces := Interfaces(U, s);
    InterfacesOfRangeOfDateTime();
    InterfacesAfterOwnConstruction(U, map[], s, t, 1);
    SearchSkips(U, map[], s, t, ifaces, 0, 1);
    SatisfiedNatively(U, map[], "IComparable", RangeOfDateTime, t, 1);
    SearchFinds(U, map[], s, t, ifaces, 1, 1, t, map[]);
  }

  /** `Range<DateTime>` is not a `DateTimeRange`; the negative verdict is recorded. */
  lemma RangeIsNotDateTimeRange()
    ensures Check(U, map[], Some(RangeOfDateTime), Some(DateTimeRange), 0) ==
      (Done(false, None), map[(RangeOfDateTime, DateTimeRange) := None])
  {
    UniverseIsWellFormed();
    NonGenericTarget(U, map[], RangeOfDateTime, DateTimeRange, 0);
  }

  /** Hence `IComparable<Range<DateTime>>` does not satisfy `IComparable<DateTimeRange>`. */
  lemma ComparableToRangeMisses()
    ensures Satisfies(U, map[], Of("IComparable", RangeOfDateTime), Of("IComparable", DateTimeRange), 1) ==
      (Done(false, None), map[(RangeOfDateTime, DateTimeRange) := None])
  {
    UniverseIsWellFormed();
    RangeIsNotDateTimeRange();
    RangeIsNotNativelyDateTimeRange();
    SatisfiedRecursively(U, map[], "IComparable", RangeOfDateTime, Of("IComparable", DateTimeRange), 1,
      Done(false, None), map[(RangeOfDateTime, DateTimeRange) := None]);
  }

  /** The rest of the search over the interfaces of `DateTimeRange` finds
      `IComparable<DateTimeRange>` at position 3. */
  lemma ComparableToDateTimeRangeFound(c: Cache)
    ensures SearchInterfaces(U, c, DateTimeRange, Of("IComparable", DateTimeRange), DateTimeRangeInterfaces(), 2, 1) ==
      (Done(true, Some(Of("IComparable", DateTimeRange))),
       TryAdd(c, (DateTimeRange, Of("IComparable", DateTimeRange)), Some(Of("IComparable", DateTimeRange))))
  {
    UniverseIsWellFormed();
    var s, t := DateTimeRange, Of("IComparable", DateTimeRange);
    var ifaces := DateTimeRangeInterfaces();
    SearchSkips(U, c, s, t, ifaces, 2, 1);
    SatisfiedNatively(U, c, "IComparable", DateTimeRange, t, 1);
    SearchFinds(U, c, s, t, ifaces, 3, 1, t, c);
  }

  /** Against `IComparable<DateTimeRange>` the interface `IComparable<Range<DateTime>>`
      comes first but fails (`Range<DateTime>` is not a `DateTimeRange`), and the search
      goes on to `IComparable<DateTimeRange>`. */
  lemma DateTimeRangeIsComparableToDateTimeRange()
    ensures Query(DateTimeRange, Of("IComparable", DateTimeRange), 1) ==
      Done(true, Some(Of("IComparable", DateTimeRange)))
  {
    UniverseIsWellFormed();
    var s, t := DateTimeRange, Of("IComparable", DateTimeRange);
    var ifaces := DateTimeRangeInterfaces();
    InterfacesOfDateTimeRange();
    InterfacesAfterOwnConstruction(U, map[], s, t, 1);
    SearchSkips(U, map[], s, t, ifaces, 0, 1);
    ComparableToRangeMisses();
    var c1 := map[(RangeOfDateTime, DateTimeRange) := None];
    SearchMovesOn(U, map[], s, t, ifaces, 1, 1, c1);
    ComparableToDateTimeRangeFound(c1);
  }

  /** `DateTimeRange` reaches `IComparable<Range<DateTime>>` through its interfaces. */
  lemma DateTimeRangeIsComparableToRange()
    ensures Query(DateTimeRange, Of("IComparable", RangeOfDateTime), 1) ==
      Done(true, Some(Of("IComparable", RangeOfDateTime)))
  {
    UniverseIsWellFormed();
    var s, t := DateTimeRange, Of("IComparable", RangeOfDateTime);
    var ifaces := DateTimeRangeInterfaces();
    InterfacesOfDateTimeRange();
    InterfacesAfterOwnConstruction(U, map[], s, t, 1);
    SearchSkips(U, map[], s, t, ifaces, 0, 1);
    SatisfiedNatively(U, map[], "IComparable", RangeOfDateTime, t, 1);
    SearchFinds(U, map[], s, t, ifaces, 1, 1, t, map[]);
  }

  /** `List<EntityType>` implements `ICollection<EntityType>`, its second interface. */
  lemma ListIsCollection()
    ensures Query(Of("List", EntityType), Of("ICollection", EntityType), 1) == Done(true, Some(Of("ICollection", EntityType)))
  {
    UniverseIsWellFormed();
    var s, t := Of("List", EntityType), Of("ICollection", EntityType);
    var ifaces := Interfaces(U, s);
    InterfacesOfList(EntityType);
    InterfacesAfterOwnConstruction(U, map[], s, t, 1);
    SearchSkips(U, map[], s, t, ifaces, 0, 1);
    SatisfiedNatively(U, map[], "ICollection", EntityType, t, 1);
    SearchFinds(U, map[], s, t, ifaces, 1, 1, t, map[]);
  }

  /** `List<int>` is an `IEnumerable<int>`, found third among its interfaces. */
  lemma ListOfIntIsEnumerable()
    ensures Query(Of("List", Int32), Of("IEnumerable", Int32), 1) == Done(true, Some(Of("IEnumerable", Int32)))
  {
    UniverseIsWellFormed();
    var s, t := Of("List", Int32), Of("IEnumerable", Int32);
    var ifaces := Interfaces(U, s);
    InterfacesOfList(Int32);
    InterfacesAfterOwnConstruction(U, map[], s, t, 1);
    SearchSkips(U, map[], s, t, ifaces, 0, 1);
    assert "ICollection" != "IEnumerable" by { assert "ICollection"[1] != "IEnumerable"[1]; }
    SearchSkips(U, map[], s, t, ifaces, 1, 1);
    SatisfiedNatively(U, map[], "IEnumerable", Int32, t, 1);
    SearchFinds(U, map[], s, t, ifaces, 2, 1, t, map[]);
  }

  /** `Exception` is not an `IEntityType`; the negative verdict is recorded. */
  lemma ExceptionIsNotIEntityType(c: Cache)
    requires (Exception, IEntityType) !in c
    ensures Check(U, c, Some(Exception), Some(IEntityType), 0) == (Done(false, None), c[(Exception, IEntityType) := None])
  {
    UniverseIsWellFormed();
    NonGenericTarget(U, c, Exception, IEntityType, 0);
  }

  /** `ICollection<Exception>` is not an `ICollection<IEntityType>`: the argument fails its
      recursive query, and no interface of the source has the target's definition. */
  lemma CollectionOfExceptionIsNotCollectionOfEntities()
    ensures Query(Of("ICollection", Exception), Of("ICollection", IEntityType), 1) == Done(false, None)
  {
    UniverseIsWellFormed();
    var s, t := Of("ICollection", Exception), Of("ICollection", IEntityType);
    var c1 := map[(Exception, IEntityType) := None];
    ExceptionIsNotIEntityType(map[]);
    ExceptionIsNotNativelyIEntityType();
    SatisfiedRecursively(U, map[], "ICollection", Exception, t, 1, Done(false, None), c1);
    InterfacesAfterOwnConstruction(U, map[], s, t, 1);
    SubstOf("IEnumerable", Param("ICollection", 0), "ICollection", [Exception]);
    var ifaces := Interfaces(U, s);
    assert ifaces == [Of("IEnumerable", Exception)];
    SearchSkips(U, c1, s, t, ifaces, 0, 1);
  }

  /** A natively assignable argument is kept: the runtime type is
      `ICollection<EntityType>`, not the target. */
  lemma ListOfEntitiesIsCollectionOfIEntities()
    ensures Query(Of("List", EntityType), Of("ICollection", IEntityType), 1) ==
      Done(true, Some(Of("ICollection", EntityType)))
  {
    UniverseIsWellFormed();
    var s, t := Of("List", EntityType), Of("ICollection", IEntityType);
    var ifaces := Interfaces(U, s);
    InterfacesOfList(EntityType);
    InterfacesAfterOwnConstruction(U, map[], s, t, 1);
    SearchSkips(U, map[], s, t, ifaces, 0, 1);
    SatisfiedNatively(U, map[], "ICollection", EntityType, t, 1);
    SearchFinds(U, map[], s, t, ifaces, 1, 1, Of("ICollection", EntityType), map[]);
  }

  lemma ListOfSpecificIsCollectionOfGeneric()
    ensures Query(Of("List", SpecificEntityType), Of("ICollection", GenericOfEntity), 1) ==
      Done(true, Some(Of("ICollection", SpecificEntityType)))
  {
    UniverseIsWellFormed();
    var s, t := Of("List", SpecificEntityType), Of("ICollection", GenericOfEntity);
    var ifaces := Interfaces(U, s);
    InterfacesOfList(SpecificEntityType);
    InterfacesAfterOwnConstruction(U, map[], s, t, 1);
    SearchSkips(U, map[], s, t, ifaces, 0, 1);
    SatisfiedNatively(U, map[], "ICollection", SpecificEntityType, t, 1);
    SearchFinds(U, map[], s, t, ifaces, 1, 1, Of("ICollection", SpecificEntityType), map[]);
  }

  /** `SpecificEntityType` is an `IGenericEntityType<IEntityType>` through its interface
      `IGenericEntityType<EntityType>`, which is what it resolves to. */
  lemma SpecificIsGenericOfIEntity(c: Cache)
    requires (SpecificEntityType, GenericOfIEntity) !in c
    ensures Check(U, c, Some(SpecificEntityType), Some(GenericOfIEntity), 0) ==
      (Done(true, Some(GenericOfEntity)), c[(SpecificEntityType, GenericOfIEntity) := Some(GenericOfEntity)])
  {
    UniverseIsWellFormed();
    var s, t := SpecificEntityType, GenericOfIEntity;
    var ifaces := Interfaces(U, s);
    InterfacesOfSpecificEntityType();
    InterfacesAfterOwnConstruction(U, c, s, t, 0);
    SatisfiedNatively(U, c, "IGenericEntityType", EntityType, t, 0);
    SearchFinds(U, c, s, t, ifaces, 0, 0, GenericOfEntity, c);
  }

  /** An argument that needs a recursive query is replaced by what that query resolves
      to. */
  lemma CollectionOfSpecificFitsGenericOfIEntity(c: Cache)
    requires (SpecificEntityType, GenericOfIEntity) !in c
    ensures Satisfies(U, c, Of("ICollection", SpecificEntityType), Of("ICollection", GenericOfIEntity), 1) ==
      (Done(true, Some(Of("ICollection", GenericOfEntity))),
       c[(SpecificEntityType, GenericOfIEntity) := Some(GenericOfEntity)])
  {
    UniverseIsWellFormed();
    SpecificIsGenericOfIEntity(c);
    SpecificIsNotNativelyGenericOfIEntity();
    SatisfiedRecursively(U, c, "ICollection", SpecificEntityType, Of("ICollection", GenericOfIEntity), 1,
      Done(true, Some(GenericOfEntity)), c[(SpecificEntityType, GenericOfIEntity) := Some(GenericOfEntity)]);
  }

  /** So `List<SpecificEntityType>` resolves to `ICollection<IGenericEntityType<EntityType>>`. */
  lemma ListOfSpecificIsCollectionOfGenericOfIEntity()
    ensures Query(Of("List", SpecificEntityType), Of("ICollection", GenericOfIEntity), 1) ==
      Done(true, Some(Of("ICollection", GenericOfEntity)))
  {
    UniverseIsWellFormed();
    var s, t := Of("List", SpecificEntityType), Of("ICollection", GenericOfIEntity);
    var ifaces := Interfaces(U, s);
    var c1 := map[(SpecificEntityType, GenericOfIEntity) := Some(GenericOfEntity)];
    InterfacesOfList(SpecificEntityType);
    InterfacesAfterOwnConstruction(U, map[], s, t, 1);
    SearchSkips(U, map[], s, t, ifaces, 0, 1);
    CollectionOfSpecificFitsGenericOfIEntity(map[]);
    SearchFinds(U, map[], s, t, ifaces, 1, 1, Of("ICollection", GenericOfEntity), c1);
  }

  /** The source's own construction is tried first. */
  lemma CollectionOfSpecificIsCollectionOfGeneric()
    ensures Query(Of("ICollection", SpecificEntityType), Of("ICollection", GenericOfEntity), 1) ==
      Done(true, Some(Of("ICollection", SpecificEntityType)))
  {
    UniverseIsWellFormed();
    var s, t := Of("ICollection", SpecificEntityType), Of("ICollection", GenericOfEntity);
    SatisfiedNatively(U, map[], "ICollection", SpecificEntityType, t, 1);
    OwnConstructionFirst(U, map[], s, t, 1);
  }

  lemma CollectionOfSpecificIsCollectionOfGenericOfIEntity()
    ensures Query(Of("ICollection", SpecificEntityType), Of("ICollection", GenericOfIEntity), 1) ==
      Done(true, Some(Of("ICollection", GenericOfEntity)))
  {
    UniverseIsWellFormed();
    var s, t := Of("ICollection", SpecificEntityType), Of("ICollection", GenericOfIEntity);
    CollectionOfSpecificFitsGenericOfIEntity(map[]);
    OwnConstructionFirst(U, map[], s, t, 1);
  }

  /** Against an open class target the closed base type is returned. */
  lemma DateTimeRangeIsOpenRange()
    ensures Query(DateTimeRange, Of("Range", Param("Range", 0)), 0) == Done(true, Some(RangeOfDateTime))
  {
    UniverseIsWellFormed();
    SubstClosed(RangeOfDateTime, "DateTimeRange", []);
    assert ChainMatch(U, DateTimeRange, Definition(Of("Range", Param("Range", 0)))) == Some(RangeOfDateTime);
  }

  /** Against an open interface target the candidate's arguments fill the parameters. */
  lemma ListIsOpenCollection()
    ensures Query(Of("List", EntityType), Of("ICollection", Param("ICollection", 0)), 0) ==
      Done(true, Some(Of("ICollection", EntityType)))
  {
    UniverseIsWellFormed();
    var s, t := Of("List", EntityType), Of("ICollection", Param("ICollection", 0));
    var ifaces := Interfaces(U, s);
    InterfacesOfList(EntityType);
    InterfacesAfterOwnConstruction(U, map[], s, t, 0);
    SearchSkips(U, map[], s, t, ifaces, 0, 0);
    assert Constraints(U, Param("ICollection", 0)) == [];
    SatisfiedAtParameter(U, map[], "ICollection", EntityType, t, 0);
    SearchFinds(U, map[], s, t, ifaces, 1, 0, Of("ICollection", EntityType), map[]);
  }

  /** An open parameter's constraints are checked: `EntityType` meets `T : IEntityType`. */
  lemma SpecificIsOpenGenericEntity()
    ensures Query(SpecificEntityType, Of("IGenericEntityType", Param("IGenericEntityType", 0)), 0) ==
      Done(true, Some(GenericOfEntity))
  {
    UniverseIsWellFormed();
    var s, t := SpecificEntityType, Of("IGenericEntityType", Param("IGenericEntityType", 0));
    var ifaces := Interfaces(U, s);
    InterfacesOfSpecificEntityType();
    InterfacesAfterOwnConstruction(U, map[], s, t, 0);
    assert Constraints(U, Param("IGenericEntityType", 0)) == [IEntityType];
    SatisfiedAtParameter(U, map[], "IGenericEntityType", EntityType, t, 0);
    SearchFinds(U, map[], s, t, ifaces, 0, 0, GenericOfEntity, map[]);
  }

  /** The first fitting interface wins: `IComparable<Range<DateTime>>` is returned for
      `IComparable<IRange>`, although `IComparable<DateTimeRange>`, later in the list,
      fits too. */
  lemma DateTimeRangeIsComparableToIRange()
    ensures Query(DateTimeRange, Of("IComparable", IRange), 1) == Done(true, Some(Of("IComparable", RangeOfDateTime)))
    ensures Satisfies(U, map[], Of("IComparable", DateTimeRange), Of("IComparable", IRange), 1).0 ==
      Done(true, Some(Of("IComparable", DateTimeRange)))
  {
    UniverseIsWellFormed();
    var s, t := DateTimeRange, Of("IComparable", IRange);
    var ifaces := DateTimeRangeInterfaces();
    InterfacesOfDateTimeRange();
    InterfacesAfterOwnConstruction(U, map[], s, t, 1);
    SearchSkips(U, map[], s, t, ifaces, 0, 1);
    SatisfiedNatively(U, map[], "IComparable", RangeOfDateTime, t, 1);
    SearchFinds(U, map[], s, t, ifaces, 1, 1, Of("IComparable", RangeOfDateTime), map[]);
    SatisfiedNatively(U, map[], "IComparable", DateTimeRange, t, 1);
  }
}
