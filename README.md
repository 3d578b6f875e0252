# TypeLogic.LiskovWingSubstitution in Dafny

TypeLogic.LiskovWingSubstitution decides whether a runtime type can stand in for an
expected type shape. The expected type may be generic, and it may even be an open
generic definition such as `ICollection<>`. When the runtime type fits, the library
returns the closed type it stands in as. This project models the decision procedure
`IsSubtypeOf(type, expectedType, out runtimeType)` and its helper
`SatisfiesTypeConstraints`. It also models the memo table of verdicts they fill, the
`TypePair` key of that table, and the two range types of the test suite
(`Range<T>` and `DateTimeRange`). It then proves properties of the model.

## The type universe (`type_model.dfy`)

The .NET reflection API becomes a small in-memory universe:

- A type `Ty` is either a named construction `Con(name, args)`, or the `index`-th
  generic parameter of a declaration, `Param(owner, index)`.
- A declaration `Decl` records:
  - whether it is an interface;
  - its depth in the class hierarchy;
  - its base type and its ordered interface list, both written over its own
    parameters;
  - the constraint list of each parameter.
- Native assignability (`Type.IsAssignableFrom`) is an uninterpreted relation of
  the `Universe`.

Reflection's queries become functions on this universe: `GetGenericTypeDefinition`,
`GetGenericArguments`, `MakeGenericType`, `BaseType`, `GetInterfaces`,
`ContainsGenericParameters` and `GetGenericParameterConstraints`. The generic
definition of `Con(n, args)` is `n` applied to its own parameters, so the arity is part
of a definition's identity. `WellFormed` asks that a base type sit strictly lower in
the hierarchy than the type deriving from it. That is what ends the base-chain walk:
the platform forbids cyclic inheritance.

## The checker, three times

- **`substitution.dfy`** is the checker as functions that thread the cache through
  every step, in the source's order:
  1. null arguments;
  2. identity;
  3. cache lookup;
  4. the non-generic target;
  5. the base-chain walk for class targets;
  6. for interface targets, the source's own construction and then each of its
     interfaces;
  7. the per-argument constraint checks, which recurse back into the checker.

  The source's recursion has no bound, so each recursive query spends one unit of
  `fuel`. Running out gives `OutOfFuel`, which aborts the whole query and records
  nothing for the pairs that were still open.
- **`type_extensions.dfy`** is the same checker as an object, the class
  `SubstitutionChecker`:
  - the cache is a field that the methods update in place;
  - the `do`/`while` walk and the loops over interfaces, arguments and constraints
    are loops;
  - `substitutedArgs` is an array filled position by position.

  Each method is proved to compute exactly what the functions compute. The interface
  part of `IsSubtypeOf` is the separate method `MatchInterface`. One pass of the
  argument loop is `SubstituteArgument`, and the inner constraint loop is
  `MeetsConstraints`.
- **`reference.dfy`** is the checker without a cache. **`cache_soundness.dfy`**
  proves that every cache the checker builds is *consistent*: each entry is the
  answer the cacheless checker gives for its pair. It also proves that the cached
  checker gives the cacheless checker's answers. So no completed answer depends on what
  earlier queries cached, and clearing the cache changes no completed answer. At one
  fuel, though, a cached entry can let a query complete that would otherwise run out
  of fuel.

`constraint_checks.dfy` states when `SatisfiesTypeConstraints` succeeds and when it
fails, one argument position at a time. A position is *accepted* in one of two ways:
- it keeps the candidate's argument, which is equal to, natively assignable to, or
  meets every constraint of the expected argument;
- it takes the runtime type of a successful recursive query.

A position is *refused* when a recursive query for it, or for one of its constraints,
completes with false. An argument count that differs from the target's fails.

- **The cacheless loops** succeed exactly when every position is accepted, with the
  accepted arguments. They reject exactly when the first position that is not
  accepted is refused, and in every other case they run out of fuel.
- **The cached loops**, from a consistent cache, are proved something weaker:
  - a completed answer matches the description at some fuel;
  - a description that holds at the loop's own fuel fixes the loop's answer.

  At the loop's own fuel a cached loop can complete while neither description holds.
  This happens when a cached entry answers a query that the cacheless checker would
  run out of fuel on, as noted for `cache_soundness.dfy` above.

`substitution_facts.dfy` states what one query promises:
- null arguments are rejected;
- every type is reflexively its own substitute;
- a cached pair is answered from the cache;
- a non-generic target is decided by native assignability alone;
- a class target takes the first match on the base chain;
- an interface target tries the source's own construction first.

`scenarios.dfy` declares the types of the test suite in a concrete universe: those of
FunkyTypesHierarchy.cs, Range.cs and TestTypes.cs, plus the parts of the base library
they use. It then proves the checker's answers for the assertions of
TypeVarianceTests.cs. Native assignability there is a finite subset of the
platform's: identity, `Object`, and a list of pairs. That list holds every assignable
pair the checker consults natively while answering those queries. Pairs it never
consults there, such as (`List<int>`, `IEnumerable<int>`) or (`Range<DateTime>`,
`IComparable<Range<DateTime>>`), are left out.

## The value types

- **`type_pairs.dfy`**: `TypePair` keeps its two (possibly null) types and a hash fixed
  at construction as `(h1 * 397) ^ h2`.
  - The hash is held as a `bv32` bit pattern, so the multiplication wraps around as
    `unchecked` `int` arithmetic does.
  - `Signed` reads a bit pattern as the `int` it stands for.
  - The hash of a single `Type` is a parameter of the model.
- **`ranges.dfy`**: `Range<T>` is an immutable datatype. The source's constructor
  assigns two fields through a conditional swap and nothing changes them afterwards,
  so a value models it. `T.CompareTo` is a parameter of each operation. `ValidComparer`
  and `OrderComparer` state what `IComparable<T>` and `IEquatable<T>` are expected to
  provide. A null range argument is `None`, and an exception is an `Err` result.
- **`date_time_ranges.dfy`**: in `DateTimeRange`, a `DateTime` is its tick count,
  between `MinValue` (0) and `MaxValue` (3155378975999999999). A `TimeSpan` is a signed
  64-bit tick count.

## Model

| member | source | states |
|---|---|---|
| TypeModel.Definition | TypeLogic.LiskovWingSubstitution/TypeExtensions.cs:109 | `GetGenericTypeDefinition` exists exactly for a generic type (`IsGenericType`: a construction with arguments), and it keeps the type's name with each argument replaced by the declaration's own parameter |
| TypeModel.MakeGenericType | TypeLogic.LiskovWingSubstitution/TypeExtensions.cs:218-219 | the construction has the definition's name and exactly the given arguments |
| TypeModel.BaseType | TypeLogic.LiskovWingSubstitution/TypeExtensions.cs:124 | a base type, when there is one, sits strictly lower in a well-formed hierarchy, so the base-chain walk ends |
| TypeModel.Interfaces | TypeLogic.LiskovWingSubstitution/TypeExtensions.cs:139 | one interface per declared interface of the type's declaration; none for a parameter or an undeclared type |
| TypeModel.BaseChain | TypeLogic.LiskovWingSubstitution/TypeExtensions.cs:113-125 | the chain the walk visits starts at the source itself |
| TypeModel.DefinitionOfDefinition | TypeLogic.LiskovWingSubstitution/TypeExtensions.cs:117-118 | the definition of a definition is that definition, so comparing definitions is well-defined |
| TypeModel.ArgumentsRoundTrip | TypeLogic.LiskovWingSubstitution/TypeExtensions.cs:217-219 | applying a type's definition to arguments of its arity gives a generic type with that definition whose `GetGenericArguments` are exactly those arguments; with the type's own arguments it gives the type back |
| TypeModel.ParameterIsNotGeneric | TypeLogic.LiskovWingSubstitution/TypeExtensions.cs:189 | an `IsGenericParameter` type is not a generic type, has no arguments and no definition; only a parameter has `GetGenericParameterConstraints` |
| TypeModel.ConstraintsOfDefinition | TypeLogic.LiskovWingSubstitution/TypeExtensions.cs:205 | each argument of a definition is a generic parameter, and its constraints are those declared for that parameter |
| TypeModel.OpenConstructions | TypeLogic.LiskovWingSubstitution/TypeExtensions.cs:96 | a definition `ContainsGenericParameters`, and a construction does exactly when one of its arguments does |
| TypeModel.InterfaceByDefinition | TypeLogic.LiskovWingSubstitution/TypeExtensions.cs:111 | `IsInterface` holds of a generic type exactly when it holds of its definition, and never of a parameter |
| Substitution.TryAdd | TypeLogic.LiskovWingSubstitution/TypeExtensions.cs:104 | adds its key, sets the value only when the key was absent, and leaves every existing entry as it was |
| Substitution.GetOrAdd | TypeLogic.LiskovWingSubstitution/TypeExtensions.cs:99 | returns the entry now under the key, after a `TryAdd` of the given value |
| Substitution.ChainMatch | TypeLogic.LiskovWingSubstitution/TypeExtensions.cs:113-125 | a match found on the base chain has the expected definition |
| Substitution.ChainMatchIsFirst | TypeLogic.LiskovWingSubstitution/TypeExtensions.cs:113-125 | the walk finds nothing exactly when no chain element has the definition, and otherwise returns the first chain element that has it |
| Substitution.Check | TypeLogic.LiskovWingSubstitution/TypeExtensions.cs:72-159 | the verdict is true exactly when a runtime type is returned; the cache only grows; a completed query of two different types leaves an entry for the pair |
| Substitution.Analyse | TypeLogic.LiskovWingSubstitution/TypeExtensions.cs:93-158 | a completed analysis records the pair, and a positive one resolves to the source itself for a non-generic target or to a type with the target's definition for a generic one |
| Substitution.InterfaceBranch | TypeLogic.LiskovWingSubstitution/TypeExtensions.cs:127-157 | a positive answer for an interface target has the target's definition; a completed one is recorded |
| Substitution.SearchInterfaces | TypeLogic.LiskovWingSubstitution/TypeExtensions.cs:139-157 | the interface loop records its verdict, and a positive one has the target's definition |
| Substitution.Satisfies | TypeLogic.LiskovWingSubstitution/TypeExtensions.cs:174-221 | a candidate whose argument count differs from the target's fails, with the cache untouched; on success the result is the target's definition applied to as many arguments as target and candidate have, and every open or natively fitting position keeps the candidate's argument; when it succeeds and when it fails is `ConstraintChecks.SatisfiesDecides` |
| Substitution.SubstituteArgs | TypeLogic.LiskovWingSubstitution/TypeExtensions.cs:184-215 | on success the argument sequence has full length, extends what was filled so far, and keeps the candidate's argument at every open or natively fitting position; the cache only grows; when it succeeds and when it rejects is `ConstraintChecks.SubstituteArgsDecides` |
| Substitution.MeetConstraints | TypeLogic.LiskovWingSubstitution/TypeExtensions.cs:205-213 | on success the argument passes through unchanged; the cache only grows; when it succeeds and when it rejects is `ConstraintChecks.MeetConstraintsDecides` |
| SubstitutionFacts.NullArgumentsRejected | TypeLogic.LiskovWingSubstitution/TypeExtensions.cs:74-77 | a null argument gives false with a null runtime type and an untouched cache |
| SubstitutionFacts.Reflexive | TypeLogic.LiskovWingSubstitution/TypeExtensions.cs:78-82 | a type stands in for itself, as itself, and nothing is recorded |
| SubstitutionFacts.CachedVerdict | TypeLogic.LiskovWingSubstitution/TypeExtensions.cs:84-91 | a cached pair returns the cached value, with verdict "value is not null", and the cache stays as it was |
| SubstitutionFacts.ChainMatchNoDefinition | TypeLogic.LiskovWingSubstitution/TypeExtensions.cs:109-125 | walking the chain with a null expected definition never matches |
| SubstitutionFacts.SearchWithoutCandidates | TypeLogic.LiskovWingSubstitution/TypeExtensions.cs:139-157 | when no remaining interface has the target's definition and arity, the loop ends with false and records a null entry |
| SubstitutionFacts.NonGenericTarget | TypeLogic.LiskovWingSubstitution/TypeExtensions.cs:94-106 | for a non-generic target the verdict is "the source is closed and natively assignable", the runtime type is then the source, and exactly that verdict is recorded |
| SubstitutionFacts.ClassTarget | TypeLogic.LiskovWingSubstitution/TypeExtensions.cs:111-125 | for a generic class target the answer is the first base-chain element with the target's definition, with no argument check, and it is recorded |
| SubstitutionFacts.ClassVerdictIgnoresTargetArguments | TypeLogic.LiskovWingSubstitution/TypeExtensions.cs:111-125 | two class targets with one definition get the same answer, whatever their arguments |
| SubstitutionFacts.OwnConstructionFirst | TypeLogic.LiskovWingSubstitution/TypeExtensions.cs:129-136 | when the source's own construction satisfies an interface target, that is the answer, before any interface is looked at |
| SubstitutionFacts.InterfacesAfterOwnConstruction | TypeLogic.LiskovWingSubstitution/TypeExtensions.cs:129-155 | otherwise the answer is the interface search, in order, from the cache the first attempt left |
| SubstitutionFacts.CandidateIsSameShape | TypeLogic.LiskovWingSubstitution/TypeExtensions.cs:143-147 | the interface loop's `Candidate` filter (generic, same definition, same argument count) holds exactly of an interface with the target's name and arity |
| Reference.Sub | TypeLogic.LiskovWingSubstitution/TypeExtensions.cs:72-159 | the cacheless checker's verdict is true exactly when it names a runtime type, which has the shape of the target |
| Reference.SubInterfaces | TypeLogic.LiskovWingSubstitution/TypeExtensions.cs:139-155 | a positive answer of the cacheless interface loop has the target's definition |
| Reference.SubSatisfies | TypeLogic.LiskovWingSubstitution/TypeExtensions.cs:174-221 | a positive answer of the cacheless constraint check has the target's definition |
| Reference.SubArgs | TypeLogic.LiskovWingSubstitution/TypeExtensions.cs:184-215 | a successful cacheless argument loop yields one argument per position |
| Reference.SubConstraints | TypeLogic.LiskovWingSubstitution/TypeExtensions.cs:205-213 | a met constraint list passes the argument through |
| Reference.SubMonoLe | TypeLogic.LiskovWingSubstitution/TypeExtensions.cs:72-159 | an answer that did not run out stays the same with any more fuel, so the fuel only bounds the source's unbounded recursion |
| Reference.SubDeterministic | TypeLogic.LiskovWingSubstitution/TypeExtensions.cs:72-159 | any two completed answers for one pair agree |
| Reference.SubInterfacesFirstMatch | TypeLogic.LiskovWingSubstitution/TypeExtensions.cs:140-155 | a positive answer of the interface loop is that of the first candidate, in declaration order, that satisfies the constraints, and every earlier candidate failed |
| ConstraintChecks.Accepted | TypeLogic.LiskovWingSubstitution/TypeExtensions.cs:189-214 | the argument taken at a position that passes through (`Substitution.PassThrough`) is the candidate's own |
| ConstraintChecks.PassThroughWithoutQuery | TypeLogic.LiskovWingSubstitution/TypeExtensions.cs:189-195 | `Substitution.PassThrough` at a concrete position holds exactly when the position is accepted without a recursive query, and the candidate's argument is then kept at any fuel; a position that does not pass through is never refused without a query |
| ConstraintChecks.SubConstraintsDecides | TypeLogic.LiskovWingSubstitution/TypeExtensions.cs:205-213 | the cacheless constraint loop passes the argument through exactly when every constraint is equal, natively assignable or met by a successful recursive query, and rejects exactly when the first constraint not met has a recursive query that completes with false |
| ConstraintChecks.SubArgsStep | TypeLogic.LiskovWingSubstitution/TypeExtensions.cs:187-214 | one position of the cacheless argument loop: an accepted position continues with the accepted argument, a refused one rejects, any other runs out of fuel |
| ConstraintChecks.SubArgsProceeds | TypeLogic.LiskovWingSubstitution/TypeExtensions.cs:185-215 | the cacheless argument loop succeeds with `xs` exactly when every position is accepted with `xs[k]`: the candidate's argument where it is equal or natively assignable, or where it meets every constraint of an open parameter, and otherwise the runtime type of a successful recursive query |
| ConstraintChecks.SubArgsRejects | TypeLogic.LiskovWingSubstitution/TypeExtensions.cs:185-215 | the cacheless argument loop rejects exactly when the first position not accepted is refused: a failed recursive query for the argument or for one of its constraints |
| ConstraintChecks.SubSatisfiesDecides | TypeLogic.LiskovWingSubstitution/TypeExtensions.cs:178-221 | the cacheless constraint check fails on an arity mismatch; it succeeds with `rt` exactly when `rt` is the target's definition applied to accepted arguments, and fails exactly on an arity mismatch or a refused first non-accepted position |
| ConstraintChecks.MeetConstraintsDecides | TypeLogic.LiskovWingSubstitution/TypeExtensions.cs:205-213 | from a consistent cache, the cached constraint loop passes through only when every constraint is met at some fuel and rejects only when the first one not met is refused at some fuel; either description at its own fuel fixes its answer |
| ConstraintChecks.SubstituteArgsDecides | TypeLogic.LiskovWingSubstitution/TypeExtensions.cs:185-215 | from a consistent cache, the cached argument loop succeeds with `xs` only when every position is accepted with `xs[k]` at some fuel, and rejects only when the first non-accepted position is refused at some fuel; either description at its own fuel fixes its answer |
| ConstraintChecks.SatisfiesDecides | TypeLogic.LiskovWingSubstitution/TypeExtensions.cs:178-221 | from a consistent cache, `SatisfiesTypeConstraints` succeeds with `rt` only when `rt` is the target's definition applied to arguments accepted at some fuel, and fails only on an arity mismatch or a refused position; either description at its own fuel fixes its answer |
| CacheSoundness.CheckAgrees | TypeLogic.LiskovWingSubstitution/TypeExtensions.cs:84-157 | from a consistent cache a query leaves a consistent cache, its completed answer is the cacheless answer for some fuel, and it is the cacheless answer at the same fuel whenever that one completes |
| CacheSoundness.SatisfiesAgrees | TypeLogic.LiskovWingSubstitution/TypeExtensions.cs:174-221 | the same agreement for the constraint check |
| CacheSoundness.EmptyCacheConsistent | TypeLogic.LiskovWingSubstitution/TypeExtensions.cs:12-18 | the empty cache, as created and as cleared, is consistent |
| CacheSoundness.CacheIndependent | TypeLogic.LiskovWingSubstitution/TypeExtensions.cs:84-91 | two completed answers for one query agree, whatever consistent caches and fuels they started from |
| CacheSoundness.ClearCacheKeepsAnswers | TypeLogic.LiskovWingSubstitution/TypeExtensions.cs:15-18 | clearing the cache changes no completed answer |
| TypeExtensions.SubstitutionChecker.constructor | TypeLogic.LiskovWingSubstitution/TypeExtensions.cs:12 | the checker starts with an empty, consistent cache |
| TypeExtensions.SubstitutionChecker.ClearCache | TypeLogic.LiskovWingSubstitution/TypeExtensions.cs:15-18 | the cache is emptied, and the empty cache is consistent |
| TypeExtensions.SubstitutionChecker.IsSubtypeOf | TypeLogic.LiskovWingSubstitution/TypeExtensions.cs:72-159 | the result and the new cache are those of `Check` on the old cache; the cache stays consistent, keeps every old entry, and gains an entry for the pair of a completed non-identity query |
| TypeExtensions.SubstitutionChecker.MatchInterface | TypeLogic.LiskovWingSubstitution/TypeExtensions.cs:127-157 | the interface part of `IsSubtypeOf` computes exactly `InterfaceBranch` |
| TypeExtensions.SubstitutionChecker.SatisfiesTypeConstraints | TypeLogic.LiskovWingSubstitution/TypeExtensions.cs:174-221 | the result and the new cache are those of `Satisfies`, and the cache stays consistent |
| TypeExtensions.SubstitutionChecker.SubstituteArgument | TypeLogic.LiskovWingSubstitution/TypeExtensions.cs:187-214 | one pass of the argument loop: on success the loop continues with the produced argument appended; on failure the loop's result is that failure |
| TypeExtensions.SubstitutionChecker.MeetsConstraints | TypeLogic.LiskovWingSubstitution/TypeExtensions.cs:205-212 | the constraint loop computes exactly `MeetConstraints`, keeping the cache consistent |
| TypePairs.Make | TypeLogic.LiskovWingSubstitution/TypePair.cs:22-32 | the constructor keeps both types and carries the hash of its components (definitional) |
| TypePairs.ComponentHash | TypeLogic.LiskovWingSubstitution/TypePair.cs:28-29 | a null type hashes to 0, any other to its own hash (definitional) |
| TypePairs.Signed | TypeLogic.LiskovWingSubstitution/TypePair.cs:20 | every hash bit pattern reads as an `int` in the 32-bit range |
| TypePairs.NullPairHash | TypeLogic.LiskovWingSubstitution/TypePair.cs:28-30 | two null types hash to 0 |
| TypePairs.NullSourceHash | TypeLogic.LiskovWingSubstitution/TypePair.cs:28-30 | with a null source the hash is the target's |
| TypePairs.NullTargetHash | TypeLogic.LiskovWingSubstitution/TypePair.cs:26-30 | with a null target the hash is the wrapped product of the source's hash and 397 |
| TypePairs.CombineWithZero | TypeLogic.LiskovWingSubstitution/TypePair.cs:30 | combining with 0 leaves the wrapped product |
| TypePairs.CombineWraps | TypeLogic.LiskovWingSubstitution/TypePair.cs:26-31 | `Combine`, `(h1 * 397) ^ h2`, wraps around in 32 bits: `int.MaxValue` with 0 gives 2147483251, 0x01000000 with 0 gives -1929379840, -1 with 5 gives -394 |
| TypePairs.HashIsOrderSensitive | TypeLogic.LiskovWingSubstitution/TypePair.cs:30 | swapping the components can change the hash (397 against 1) |
| TypePairs.EqualPairsEqualHashes | TypeLogic.LiskovWingSubstitution/TypePair.cs:30-38 | `GetHashCode` is consistent with `Equals`: equal pairs built with one type hash have equal hash codes |
| TypePairs.EqualsIsKeyEquality | TypeLogic.LiskovWingSubstitution/TypePair.cs:34 | `Equals(TypePair)` on two constructed pairs holds exactly when their sources and their targets are equal, and then the pairs are identical |
| TypePairs.EqualsIsOrderSensitive | TypeLogic.LiskovWingSubstitution/TypePair.cs:34 | `(a, b)` equals `(b, a)` exactly when `a == b` |
| TypePairs.EqualsIsEquivalence | TypeLogic.LiskovWingSubstitution/TypePair.cs:34 | equality is reflexive, symmetric and transitive |
| TypePairs.EqualsObjectOnlyForPairs | TypeLogic.LiskovWingSubstitution/TypePair.cs:36 | `EqualsObject`, the source's `Equals(object)`, holds exactly of a boxed pair equal to this one, never of null or another object |
| Ranges.New | TypeLogic.LiskovWingSubstitution.Tests/TestTypes/Range.cs:33-45 | the bounds are the inputs as a multiset, the lower bound is never after the upper one, and ordered inputs are kept as given |
| Ranges.CompareTo | TypeLogic.LiskovWingSubstitution.Tests/TestTypes/Range.cs:82-89 | a null argument is an `ArgumentException`; otherwise the result is -1, 0 or 1, and 0 exactly for an equal range |
| Ranges.Equals | TypeLogic.LiskovWingSubstitution.Tests/TestTypes/Range.cs:98-101 | raises exactly on a null argument |
| Ranges.CompareToIsLexicographic | TypeLogic.LiskovWingSubstitution.Tests/TestTypes/Range.cs:85-88 | with a valid comparer, `CompareTo` is the lexicographic order on (Gte, Lt) |
| Ranges.CompareToIsAntisymmetric | TypeLogic.LiskovWingSubstitution.Tests/TestTypes/Range.cs:85-88 | `a.CompareTo(b) == -b.CompareTo(a)` |
| Ranges.CompareToIsTransitive | TypeLogic.LiskovWingSubstitution.Tests/TestTypes/Range.cs:85-88 | with a transitive comparer, "precedes" is transitive |
| Ranges.EqualsIsBoundEquality | TypeLogic.LiskovWingSubstitution.Tests/TestTypes/Range.cs:84-101 | `Equals` is equality of both bounds, and raises on null |
| DateTimeRanges.CompareTicks | TypeLogic.LiskovWingSubstitution.Tests/TestTypes/Range.cs:35 | the date comparison the base class uses is the sign of the tick difference |
| DateTimeRanges.CompareTicksIsValid | TypeLogic.LiskovWingSubstitution.Tests/TestTypes/Range.cs:19 | dates meet the comparable-and-equatable contract the base class's parameter requires |
| DateTimeRanges.FromBounds | TypeLogic.LiskovWingSubstitution.Tests/TestTypes/TestTypes.cs:52-55 | missing bounds default to `MinValue` and `MaxValue`, and the bounds come out ordered |
| DateTimeRanges.FromDuration | TypeLogic.LiskovWingSubstitution.Tests/TestTypes/TestTypes.cs:41-44 | raises exactly when `reference + duration` leaves the range of dates |
| DateTimeRanges.CompareTo | TypeLogic.LiskovWingSubstitution.Tests/TestTypes/TestTypes.cs:127-138 | the result is -1, 0 or 1, and 0 exactly when `Equals` holds |
| DateTimeRanges.DefaultIsEverything | TypeLogic.LiskovWingSubstitution.Tests/TestTypes/TestTypes.cs:19-22 | `Default`, the parameterless constructor, is `[MinValue, MaxValue)`, which holds every date but `MaxValue` |
| DateTimeRanges.ReferenceRangeIsEmpty | TypeLogic.LiskovWingSubstitution.Tests/TestTypes/TestTypes.cs:30-33 | `FromReference`, a range built from one date, has duration 0 and contains no date |
| DateTimeRanges.DurationRange | TypeLogic.LiskovWingSubstitution.Tests/TestTypes/TestTypes.cs:41-72 | the bounds are the reference and its end, in order, and the duration is the absolute value of the given one |
| DateTimeRanges.DurationZeroIffEmpty | TypeLogic.LiskovWingSubstitution.Tests/TestTypes/TestTypes.cs:66-72 | the `Duration` of an ordered range is never negative, and it is 0 exactly when the range contains no date |
| DateTimeRanges.ContainsIsHalfOpen | TypeLogic.LiskovWingSubstitution.Tests/TestTypes/TestTypes.cs:117-120 | `Contains` is half-open: the upper bound is never contained, the lower one exactly when the range is not empty |
| DateTimeRanges.IntersectsIsSymmetric | TypeLogic.LiskovWingSubstitution.Tests/TestTypes/TestTypes.cs:112-115 | `Intersects` is symmetric |
| DateTimeRanges.IntersectsItself | TypeLogic.LiskovWingSubstitution.Tests/TestTypes/TestTypes.cs:112-115 | a range intersects itself exactly when it is not empty |
| DateTimeRanges.IntersectsIffSharedDate | TypeLogic.LiskovWingSubstitution.Tests/TestTypes/TestTypes.cs:112-120 | `Intersects` of two non-empty ordered ranges holds exactly when some date is `Contains`-ed in both |
| DateTimeRanges.EmptyRangeMayIntersect | TypeLogic.LiskovWingSubstitution.Tests/TestTypes/TestTypes.cs:112-120 | an empty range inside a larger one intersects it although it contains no date |
| DateTimeRanges.CompareToAgreesWithBase | TypeLogic.LiskovWingSubstitution.Tests/TestTypes/TestTypes.cs:127-138 | the declared `CompareTo` equals the inherited one, and both are lexicographic on (Gte, Lt) |
| DateTimeRanges.EqualsAgreesWithBase | TypeLogic.LiskovWingSubstitution.Tests/TestTypes/TestTypes.cs:94-98 | the declared `Equals(DateTimeRange)` is the inherited one on non-null ranges; on null the declared one is false where the inherited one raises |
| DateTimeRanges.EqualsObjectOnlyForRanges | TypeLogic.LiskovWingSubstitution.Tests/TestTypes/TestTypes.cs:82-85 | `EqualsObject`, the source's `Equals(object)`, is false of null and of anything but a range, and is equality of ranges otherwise |
| Scenarios.SearchSkips | TypeLogic.LiskovWingSubstitution/TypeExtensions.cs:143-147 | an interface without the target's definition and arity is skipped |
| Scenarios.SearchFinds | TypeLogic.LiskovWingSubstitution/TypeExtensions.cs:150-154 | a candidate that satisfies the constraints ends the search, and its answer is recorded |
| Scenarios.SearchMovesOn | TypeLogic.LiskovWingSubstitution/TypeExtensions.cs:140-155 | a candidate that fails moves the search on, with the cache it left |
| Scenarios.SatisfiedNatively | TypeLogic.LiskovWingSubstitution/TypeExtensions.cs:189-195 | an equal or natively assignable argument is kept |
| Scenarios.SatisfiedRecursively | TypeLogic.LiskovWingSubstitution/TypeExtensions.cs:196-200 | an argument that needs a recursive query takes what that query resolves to, or fails with it |
| Scenarios.SatisfiedAtParameter | TypeLogic.LiskovWingSubstitution/TypeExtensions.cs:202-214 | an argument that natively meets an open parameter's constraints is kept |
| Scenarios.ObjectIsObject | TypeLogic.LiskovWingSubstitution.Tests/TypeVarianceTests.cs:18-19 | `Object` stands in for `Object` as `Object` |
| Scenarios.EntityTypeIsIEntityType | TypeLogic.LiskovWingSubstitution.Tests/TypeVarianceTests.cs:21-22 | `EntityType` stands in for `IEntityType` as `EntityType` |
| Scenarios.RangeIsComparableToRange | TypeLogic.LiskovWingSubstitution.Tests/TypeVarianceTests.cs:24-25 | `Range<DateTime>` stands in for `IComparable<Range<DateTime>>` as that interface |
| Scenarios.DateTimeRangeIsRangeOfDateTime | TypeLogic.LiskovWingSubstitution.Tests/TypeVarianceTests.cs:27-28 | `DateTimeRange` stands in for `Range<DateTime>` as its base type |
| Scenarios.DateTimeRangeIsComparableToDateTimeRange | TypeLogic.LiskovWingSubstitution.Tests/TypeVarianceTests.cs:30-31 | `DateTimeRange` stands in for `IComparable<DateTimeRange>` as that interface, after `IComparable<Range<DateTime>>` fails |
| Scenarios.ComparableToRangeMisses | TypeLogic.LiskovWingSubstitution.Tests/TypeVarianceTests.cs:30-31 | `IComparable<Range<DateTime>>` fails against `IComparable<DateTimeRange>`, and the failed argument query is recorded |
| Scenarios.DateTimeRangeIsComparableToRange | TypeLogic.LiskovWingSubstitution.Tests/TypeVarianceTests.cs:33-34 | `DateTimeRange` stands in for `IComparable<Range<DateTime>>` as that interface |
| Scenarios.ListIsCollection | TypeLogic.LiskovWingSubstitution.Tests/TypeVarianceTests.cs:36 | `List<EntityType>` stands in for `ICollection<EntityType>` |
| Scenarios.ListOfIntIsEnumerable | TypeLogic.LiskovWingSubstitution.Tests/TypeVarianceTests.cs:38-39 | `List<int>` stands in for `IEnumerable<int>` as that interface |
| Scenarios.ExceptionIsNotIEntityType | TypeLogic.LiskovWingSubstitution.Tests/TypeVarianceTests.cs:41 | `Exception` is not an `IEntityType`, and the negative verdict is recorded |
| Scenarios.CollectionOfExceptionIsNotCollectionOfEntities | TypeLogic.LiskovWingSubstitution.Tests/TypeVarianceTests.cs:41 | `ICollection<Exception>` does not stand in for `ICollection<IEntityType>` |
| Scenarios.ListOfEntitiesIsCollectionOfIEntities | TypeLogic.LiskovWingSubstitution.Tests/TypeVarianceTests.cs:49-50 | `List<EntityType>` stands in for `ICollection<IEntityType>` as `ICollection<EntityType>` |
| Scenarios.ListOfSpecificIsCollectionOfGeneric | TypeLogic.LiskovWingSubstitution.Tests/TypeVarianceTests.cs:52 | `List<SpecificEntityType>` stands in for `ICollection<IGenericEntityType<EntityType>>` |
| Scenarios.SpecificIsGenericOfIEntity | TypeLogic.LiskovWingSubstitution.Tests/TestTypes/FunkyTypesHierarchy.cs:17-20 | `SpecificEntityType` stands in for `IGenericEntityType<IEntityType>` as `IGenericEntityType<EntityType>`, and that is recorded |
| Scenarios.CollectionOfSpecificFitsGenericOfIEntity | TypeLogic.LiskovWingSubstitution.Tests/TypeVarianceTests.cs:53 | `ICollection<SpecificEntityType>` satisfies `ICollection<IGenericEntityType<IEntityType>>` with the argument the recursive query resolved |
| Scenarios.ListOfSpecificIsCollectionOfGenericOfIEntity | TypeLogic.LiskovWingSubstitution.Tests/TypeVarianceTests.cs:53 | `List<SpecificEntityType>` stands in for `ICollection<IGenericEntityType<IEntityType>>` as `ICollection<IGenericEntityType<EntityType>>` |
| Scenarios.CollectionOfSpecificIsCollectionOfGeneric | TypeLogic.LiskovWingSubstitution.Tests/TypeVarianceTests.cs:55 | `ICollection<SpecificEntityType>` stands in for `ICollection<IGenericEntityType<EntityType>>` through its own construction |
| Scenarios.CollectionOfSpecificIsCollectionOfGenericOfIEntity | TypeLogic.LiskovWingSubstitution.Tests/TypeVarianceTests.cs:56 | `ICollection<SpecificEntityType>` stands in for `ICollection<IGenericEntityType<IEntityType>>` as `ICollection<IGenericEntityType<EntityType>>` |
| Scenarios.DateTimeRangeIsOpenRange | TypeLogic.LiskovWingSubstitution.Tests/TypeVarianceTests.cs:64-65 | `DateTimeRange` stands in for the open `Range<>` as `Range<DateTime>` |
| Scenarios.ListIsOpenCollection | TypeLogic.LiskovWingSubstitution.Tests/TypeVarianceTests.cs:67-68 | `List<EntityType>` stands in for the open `ICollection<>` as `ICollection<EntityType>` |
| Scenarios.SpecificIsOpenGenericEntity | TypeLogic.LiskovWingSubstitution.Tests/TestTypes/FunkyTypesHierarchy.cs:7-10 | `SpecificEntityType` stands in for the open `IGenericEntityType<>` as `IGenericEntityType<EntityType>`, its argument meeting the parameter's constraint |
| Scenarios.DateTimeRangeIsComparableToIRange | TypeLogic.LiskovWingSubstitution.Tests/TypeVarianceTests.cs:82-83 | `DateTimeRange` stands in for `IComparable<IRange>` as `IComparable<Range<DateTime>>`, the first fitting interface, although `IComparable<DateTimeRange>` fits too |

## Left out

- Fuel: the source's recursion between `IsSubtypeOf` and `SatisfiesTypeConstraints` has no bound (a cyclic constraint would overflow the stack). The model spends one unit of fuel per recursive query and answers `OutOfFuel` when none is left. `Reference.SubMonoLe` shows that the fuel never changes a completed answer.
- Concurrency: the cache is a `ConcurrentDictionary` shared between threads. It is modelled as a sequential map, so interleaved `GetOrAdd`/`TryAdd` calls are not modelled.
- The `TypeInfo` overloads and the two-argument `IsSubtypeOf` (TypeExtensions.cs lines 20-56) only forward to the three-argument `IsSubtypeOf`. InstanceExtensions.cs is not part of this model for the same reason.
- Reflection is replaced by the universe of `type_model.dfy`:
  - native assignability is an uninterpreted relation, and the platform's real variance rules are not reproduced;
  - `MakeGenericType` does not check the constraints of the definition it instantiates. When the substituted arguments break those constraints, the platform raises `ArgumentException` at TypeExtensions.cs lines 218-219. The model returns the construction instead of that error;
  - a generic parameter has no base type and no interfaces of its own.
- `DateTimeRange.Intersects` and `DateTimeRange.CompareTo` raise `NullReferenceException` on a null argument. Their model takes a non-null range.
- `DateTimeRange.Contains(DateTimeOffset)` is left out: it converts across time zones.
- `DateTimeRange.GetHashCode` and the static `Infinity` field are left out. So are the parameterless `Range()` constructor, `IsValid` (which always answers true), and the commented-out members of Range.cs.
- The hash value of a single `Type` is the runtime's own. It is a parameter of the `TypePairs` functions.
- TypePairs.Signed: the link between `bv32` multiplication and wrapped `int` multiplication is shown only on the concrete values of `TypePairs.CombineWraps`, not in general.
