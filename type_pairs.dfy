/**
 * TypePair.cs: the key of the substitution cache. A pair of (possibly null) types with
 * an order-sensitive, field-wise equality and a hash computed once, at construction,
 * as `(h1 * 397) ^ h2` in wrapping 32-bit arithmetic. The hash of a single type is
 * the runtime's own and is a parameter here.
 */
module TypePairs {
  import opened Wrappers
  import opened TypeModel

  /** The bit pattern of a C# `int`. Multiplication and `^` on `bv32` wrap around
      exactly as `unchecked` `int` arithmetic does. */
  type Bits32 = bv32

  /** The `int` a bit pattern stands for (two's complement). */
  function Signed(b: Bits32): (r: int)
    ensures -0x8000_0000 <= r < 0x8000_0000
  {
    var n := b as int;
    if n < 0x8000_0000 then n else n - 0x1_0000_0000
  }

  /** The constructor's combine of the two component hashes, `(h1 * 397) ^ h2`. */
  function Combine(h1: Bits32, h2: Bits32): Bits32 {
    (h1 * 397) ^ h2
  }

  /** `x?.GetHashCode() ?? 0` for a given hash of types. Its ensures clauses only spell
      out the definition; what the hash promises is stated by the lemmas below. */
  function ComponentHash(hash: Ty -> Bits32, x: Option<Ty>): (r: Bits32)
    ensures x.None? ==> r == 0
    ensures x.Some? ==> r == hash(x.value)
  {
    if x.None? then 0 else hash(x.value)
  }

  datatype TypePair = TypePair(source: Option<Ty>, target: Option<Ty>, hashCode: Bits32)

  /** The constructor `TypePair(source, target)`: it keeps both types and fixes the hash.
      Its ensures clauses are definitional; the lemmas below state the hash's properties. */
  function Make(hash: Ty -> Bits32, source: Option<Ty>, target: Option<Ty>): (p: TypePair)
    ensures p.source == source && p.target == target
    ensures BuiltWith(hash, p)
  {
    TypePair(source, target, Combine(ComponentHash(hash, source), ComponentHash(hash, target)))
  }

  /** `p` was made by the constructor from the type hash `hash`. */
  predicate BuiltWith(hash: Ty -> Bits32, p: TypePair) {
    p.hashCode == Combine(ComponentHash(hash, p.source), ComponentHash(hash, p.target))
  }

  /** `Equals(TypePair other)`. */
  predicate Equals(p: TypePair, q: TypePair) {
    p.source == q.source && p.target == q.target
  }

  /** `GetHashCode()`. */
  function GetHashCode(p: TypePair): Bits32 {
    p.hashCode
  }

  /** What `Equals(object)` may be handed. */
  datatype Object = Null | BoxedPair(pair: TypePair) | OtherObject

  /** `Equals(object obj)`: a pattern match on a boxed `TypePair`. */
  predicate EqualsObject(p: TypePair, obj: Object) {
    obj.BoxedPair? && Equals(p, obj.pair)
  }

  /** Two null types hash to 0. */
  lemma NullPairHash(hash: Ty -> Bits32)
    ensures GetHashCode(Make(hash, None, None)) == 0
  {
  }

  /** A null source contributes nothing: the hash is the target's. */
  lemma NullSourceHash(hash: Ty -> Bits32, target: Ty)
    ensures GetHashCode(Make(hash, None, Some(target))) == hash(target)
  {
  }

  /** A null target leaves the wrapped product of the source's hash and 397. */
  lemma NullTargetHash(hash: Ty -> Bits32, source: Ty)
    ensures GetHashCode(Make(hash, Some(source), None)) == hash(source) * 397
  {
    CombineWithZero(hash(source));
  }

  lemma CombineWithZero(h1: Bits32)
    ensures Combine(h1, 0) == h1 * 397
  {
  }

  /** The multiplication wraps around instead of overflowing: read as `int`s, the
      combine of `int.MaxValue` and 0 is 2147483251, that of 0x01000000 and 0 is
      negative, and that of -1 and 5 is -394. */
  lemma CombineWraps()
    ensures Combine(1, 2) == 399
    ensures Signed(Combine(0x7fff_ffff, 0)) == 2147483251
    ensures Signed(Combine(0x0100_0000, 0)) == -1929379840
    ensures Signed(Combine(0xffff_ffff, 5)) == -394
  {
  }

  /** The hash tells the two orders of a pair apart. */
  lemma HashIsOrderSensitive(hash: Ty -> Bits32, a: Ty, b: Ty)
    requires hash(a) == 1 && hash(b) == 0
    ensures GetHashCode(Make(hash, Some(a), Some(b))) == 397
    ensures GetHashCode(Make(hash, Some(b), Some(a))) == 1
  {
  }

  /** Equal pairs built from one type hash have equal hash codes. */
  lemma EqualPairsEqualHashes(hash: Ty -> Bits32, p: TypePair, q: TypePair)
    requires BuiltWith(hash, p) && BuiltWith(hash, q) && Equals(p, q)
    ensures GetHashCode(p) == GetHashCode(q)
  {
  }

  /** Equality of constructed pairs is equality of their (source, target) keys, which is
      why the cache is keyed by type tuples in module Substitution. */
  lemma EqualsIsKeyEquality(hash: Ty -> Bits32, s1: Option<Ty>, t1: Option<Ty>, s2: Option<Ty>, t2: Option<Ty>)
    ensures Equals(Make(hash, s1, t1), Make(hash, s2, t2)) <==> (s1, t1) == (s2, t2)
    ensures Equals(Make(hash, s1, t1), Make(hash, s2, t2)) ==> Make(hash, s1, t1) == Make(hash, s2, t2)
  {
  }

  /** The comparison is order-sensitive: `(a, b)` equals `(b, a)` only when `a == b`. */
  lemma EqualsIsOrderSensitive(hash: Ty -> Bits32, a: Option<Ty>, b: Option<Ty>)
    ensures Equals(Make(hash, a, b), Make(hash, b, a)) <==> a == b
  {
  }

  lemma EqualsIsEquivalence(p: TypePair, q: TypePair, o: TypePair)
    ensures Equals(p, p)
    ensures Equals(p, q) ==> Equals(q, p)
    ensures Equals(p, q) && Equals(q, o) ==> Equals(p, o)
  {
  }

  /** `Equals(object)` holds only of a boxed pair that `Equals` this one. */
  lemma EqualsObjectOnlyForPairs(p: TypePair, obj: Object)
    ensures EqualsObject(p, obj) <==> exists q :: obj == BoxedPair(q) && Equals(p, q)
    ensures !EqualsObject(p, Null) && !EqualsObject(p, OtherObject)
  {
    if obj.BoxedPair? {
      assert obj == BoxedPair(obj.pair);
    }
  }
}
