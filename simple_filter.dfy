/** `SimpleBloomFilter`: hashes a value once per hasher to an index modulo
    the storage size, and drives the storage at those indices. The source is
    generic over its storage; its two instantiations are two classes here,
    each offering the operations its storage's capabilities allow. */
module SimpleFilter {
  import opened Storage
  import opened Filter

  /** A hasher: a keyed hash function, reduced to the digest it gives. */
  type Hasher<-V> = V -> nat

  /** The index sequence of `v`: one index per hasher, in hasher order, each
      the hasher's digest modulo the storage size `m`. */
  function Indices<V>(hashers: seq<Hasher<V>>, m: nat, v: V): (r: seq<nat>)
    requires m > 0
    ensures |r| == |hashers| && InRange(r, m)
    ensures forall j :: 0 <= j < |r| ==> r[j] == hashers[j](v) % m
  {
    seq(|hashers|, j requires 0 <= j < |hashers| => hashers[j](v) % m)
  }

  /** A classic Bloom filter: `SimpleBloomFilter` over a `BitBox`. */
  class BinaryFilter<V> {
    const hashers: seq<Hasher<V>>
    const storage: BitBox

    constructor WithHashers(hashers: seq<Hasher<V>>, nCounters: nat)
      requires |hashers| > 0
      ensures this.hashers == hashers
      ensures fresh(storage) && fresh(storage.bits) && storage.bits[..] == Zeros(nCounters)
    {
      this.hashers := hashers;
      storage := new BitBox(nCounters);
    }

    /** `new`: `makeDefault(i)` is the hasher the i-th default construction
        gives (for a randomly seeded hasher, a different one each time). */
    constructor New(nHashers: nat, nCounters: nat, makeDefault: nat -> Hasher<V>)
      requires nHashers > 0
      ensures |hashers| == nHashers && forall i :: 0 <= i < nHashers ==> hashers[i] == makeDefault(i)
      ensures fresh(storage) && fresh(storage.bits) && storage.bits[..] == Zeros(nCounters)
    {
      var defaults: seq<Hasher<V>> := seq(nHashers, i requires 0 <= i => makeDefault(i));
      hashers := defaults;
      storage := new BitBox(nCounters);
    }

    /** The storage, read-only (`counters`). */
    function Counters(): (s: BitBox)
      ensures s == storage && s.bits == storage.bits
    {
      storage
    }

    function IndicesOf(v: V): (r: seq<nat>)
      requires storage.bits.Length > 0
      ensures InRange(r, storage.bits.Length)
    {
      Indices(hashers, storage.bits.Length, v)
    }

    method Insert(v: V)
      requires storage.bits.Length > 0
      modifies storage.bits
      ensures storage.bits[..] == Marked(old(storage.bits[..]), IndicesOf(v))
      ensures AllSet(storage.bits[..], IndicesOf(v))
    {
      var idx := Indices(hashers, storage.Size(), v);
      for j := 0 to |idx|
        invariant storage.bits[..] == Marked(old(storage.bits[..]), idx[..j])
      {
        storage.Increment(idx[j]);
        assert idx[..j + 1][..j] == idx[..j];
      }
      assert idx[..|idx|] == idx;
      MarkedKeepsMembers(old(storage.bits[..]), idx, idx);
    }

    method Contains(v: V) returns (b: bool)
      requires storage.bits.Length > 0
      ensures b == AllSet(storage.bits[..], IndicesOf(v))
    {
      var idx := Indices(hashers, storage.Size(), v);
      for j := 0 to |idx|
        invariant forall i :: 0 <= i < j ==> storage.bits[idx[i]]
      {
        if !storage.Query(idx[j]) {
          return false;
        }
      }
      return true;
    }

    method Clear()
      modifies storage.bits
      ensures storage.bits[..] == Zeros(storage.bits.Length)
    {
      storage.Clear();
    }

    /** Requires the same hashers: the source can only document that. */
    method Union(other: BinaryFilter<V>)
      requires other.storage.bits.Length == storage.bits.Length
      requires other.hashers == hashers
      modifies storage.bits
      ensures storage.bits[..] == Or(old(storage.bits[..]), old(other.storage.bits[..]))
    {
      storage.Union(other.Counters());
    }

    method Intersect(other: BinaryFilter<V>)
      requires other.storage.bits.Length == storage.bits.Length
      requires other.hashers == hashers
      modifies storage.bits
      ensures storage.bits[..] == And(old(storage.bits[..]), old(other.storage.bits[..]))
    {
      storage.Intersect(other.Counters());
    }
  }

  /** A counting and spectral Bloom filter: `SimpleBloomFilter` over a slice
      of saturating counters. */
  class CountingFilter<V> {
    const hashers: seq<Hasher<V>>
    const storage: CountBox

    constructor WithHashers(hashers: seq<Hasher<V>>, nCounters: nat)
      requires |hashers| > 0
      ensures this.hashers == hashers
      ensures HasHasher()
      ensures fresh(storage) && fresh(storage.counts) && storage.counts[..] == NoCounts(nCounters)
    {
      this.hashers := hashers;
      storage := new CountBox(nCounters);
    }

    constructor New(nHashers: nat, nCounters: nat, makeDefault: nat -> Hasher<V>)
      requires nHashers > 0
      ensures |hashers| == nHashers && forall i :: 0 <= i < nHashers ==> hashers[i] == makeDefault(i)
      ensures HasHasher()
      ensures fresh(storage) && fresh(storage.counts) && storage.counts[..] == NoCounts(nCounters)
    {
      var defaults: seq<Hasher<V>> := seq(nHashers, i requires 0 <= i => makeDefault(i));
      hashers := defaults;
      storage := new CountBox(nCounters);
    }

    /** At least one hasher: what both constructors establish (the source's
        `debug_assert!`), and what `find_count` needs for its minimum. */
    predicate HasHasher()
    {
      |hashers| > 0
    }

    /** The storage, read-only (`counters`). */
    function Counters(): (s: CountBox)
      ensures s == storage && s.counts == storage.counts
    {
      storage
    }

    function IndicesOf(v: V): (r: seq<nat>)
      requires storage.counts.Length > 0
      ensures InRange(r, storage.counts.Length)
    {
      Indices(hashers, storage.counts.Length, v)
    }

    method Insert(v: V)
      requires storage.counts.Length > 0
      modifies storage.counts
      ensures storage.counts[..] == Added(old(storage.counts[..]), IndicesOf(v))
      ensures AllAbove(storage.counts[..], IndicesOf(v), 0)
    {
      var idx := Indices(hashers, storage.Size(), v);
      for j := 0 to |idx|
        invariant storage.counts[..] == Added(old(storage.counts[..]), idx[..j])
      {
        AddedLast(old(storage.counts[..]), idx[..j + 1]);
        assert idx[..j + 1][..j] == idx[..j];
        storage.Increment(idx[j]);
      }
      assert idx[..|idx|] == idx;
      AddedKeepsMembers(old(storage.counts[..]), idx, idx, 0);
    }

    method Contains(v: V) returns (b: bool)
      requires storage.counts.Length > 0
      ensures b == AllAbove(storage.counts[..], IndicesOf(v), 0)
    {
      var idx := Indices(hashers, storage.Size(), v);
      for j := 0 to |idx|
        invariant forall i :: 0 <= i < j ==> storage.counts[idx[i]] > 0
      {
        if !storage.Query(idx[j]) {
          return false;
        }
      }
      return true;
    }

    method Clear()
      modifies storage.counts
      ensures storage.counts[..] == NoCounts(storage.counts.Length)
    {
      storage.Clear();
    }

    /** Decrements each index once per occurrence. No decrement may reach a
        zero counter, which the source leaves unchecked. */
    method Remove(v: V)
      requires storage.counts.Length > 0
      requires Removable(storage.counts[..], IndicesOf(v))
      modifies storage.counts
      ensures storage.counts[..] == Subtracted(old(storage.counts[..]), IndicesOf(v))
    {
      var idx := Indices(hashers, storage.Size(), v);
      ghost var before := storage.counts[..];
      for j := 0 to |idx|
        invariant Removable(before, idx[..j])
        invariant storage.counts[..] == Subtracted(before, idx[..j])
      {
        RemovablePrefix(before, idx, j + 1);
        SubtractedLast(before, idx[..j + 1]);
        assert idx[..j + 1][..j] == idx[..j];
        storage.Decrement(idx[j]);
      }
      assert idx[..|idx|] == idx;
    }

    method ContainsMoreThan(v: V, count: Count) returns (b: bool)
      requires storage.counts.Length > 0
      ensures b == AllAbove(storage.counts[..], IndicesOf(v), count)
      ensures HasHasher() ==> (b <==> FindCount(v) > count)
    {
      var idx := Indices(hashers, storage.Size(), v);
      b := true;
      for j := 0 to |idx|
        invariant b == forall i :: 0 <= i < j ==> storage.counts[idx[i]] > count
      {
        if storage.QueryCount(idx[j]) <= count {
          b := false;
          break;
        }
      }
      if |idx| > 0 {
        AboveIffMinAbove(storage.counts[..], idx, count);
      }
    }

    /** The multiplicity estimate: the least count at the value's indices.
        There must be a hasher (the source unwraps the minimum). */
    function FindCount(v: V): (r: Count)
      reads storage.counts
      requires HasHasher() && storage.counts.Length > 0
      ensures forall j :: 0 <= j < |hashers| ==> r <= storage.counts[IndicesOf(v)[j]]
      ensures exists j :: 0 <= j < |hashers| && r == storage.counts[IndicesOf(v)[j]]
    {
      MinAt(storage.counts[..], IndicesOf(v))
    }
  }

  /** The `union` example of `BinaryBloomFilter`: two filters sharing their
      hashers; after `f1.union(&f2)`, `f1` contains what either contained. */
  method UnionExample(makeDefault: nat -> Hasher<int>) returns (has48: bool, has32: bool, has39: bool)
    ensures has48 && has32 && has39
  {
    var f1 := new BinaryFilter<int>.New(10, 20, makeDefault);
    f1.Insert(48);
    ghost var after48 := f1.storage.bits[..];
    f1.Insert(32);
    MarkedKeepsMembers(after48, f1.IndicesOf(32), f1.IndicesOf(48));
    var f2 := new BinaryFilter<int>.WithHashers(f1.hashers, 20);
    f2.Insert(39);
    ghost var a, b := f1.storage.bits[..], f2.storage.bits[..];
    f1.Union(f2);
    UnionKeepsMembers(a, b, f1.IndicesOf(48));
    UnionKeepsMembers(a, b, f1.IndicesOf(32));
    UnionKeepsMembers(a, b, f1.IndicesOf(39));
    has48 := f1.Contains(48);
    has32 := f1.Contains(32);
    has39 := f1.Contains(39);
  }

  /** The `intersect` example of `BinaryBloomFilter`: a value inserted into
      both filters survives `f1.intersect(&f2)`. */
  method IntersectExample(makeDefault: nat -> Hasher<int>) returns (has32: bool)
    ensures has32
  {
    var f1 := new BinaryFilter<int>.New(10, 20, makeDefault);
    f1.Insert(48);
    f1.Insert(32);
    var f2 := new BinaryFilter<int>.WithHashers(f1.hashers, 20);
    f2.Insert(32);
    ghost var after32 := f2.storage.bits[..];
    f2.Insert(39);
    MarkedKeepsMembers(after32, f2.IndicesOf(39), f2.IndicesOf(32));
    ghost var a, b := f1.storage.bits[..], f2.storage.bits[..];
    f1.Intersect(f2);
    IntersectKeepsCommon(a, b, f1.IndicesOf(32));
    has32 := f1.Contains(32);
  }

  /** The `remove` example of `BloomFilterDelete`: with 10 hashers over 8-bit
      counters, inserting 30 and removing it again gives `contains(30)` back
      the value it had before, whether or not that value was a false
      positive. */
  method RemoveExample(makeDefault: nat -> Hasher<int>) returns (before: bool, afterInsert: bool, afterRemove: bool)
    ensures afterInsert
    ensures afterRemove == before
  {
    var f := new CountingFilter<int>.New(10, 20, makeDefault);
    for x := 0 to 30 {
      f.Insert(x);
    }
    before := f.Contains(30);
    ghost var c := f.storage.counts[..];
    ghost var idx := f.IndicesOf(30);
    f.Insert(30);
    afterInsert := f.Contains(30);
    AddedIsRemovable(c, idx);
    f.Remove(30);
    forall k | 0 <= k < |c|
      ensures Occurrences(idx, k) < Max
    {
      OccurrencesAtMostLength(idx, k);
    }
    RemoveAfterInsertKeepsContains(c, idx, idx);
    afterRemove := f.Contains(30);
  }

  /** The storage side of `InterleavedExample`: from any storage, inserting
      `ix` and `iy` and removing `ix` is safe and leaves `iy` counted. */
  lemma InsertInsertRemove(counts: seq<Count>, ix: seq<nat>, iy: seq<nat>)
    requires InRange(ix, |counts|) && InRange(iy, |counts|) && |iy| > 0
    ensures Removable(Added(Added(counts, ix), iy), ix)
    ensures var r := Subtracted(Added(Added(counts, ix), iy), ix);
      AllAbove(r, iy, 0) && MinAt(r, iy) >= 1
  {
    InsertCovers(counts, [], ix);
    assert [] + [ix] == [ix];
    InsertCovers(Added(counts, ix), [ix], iy);
    var history := [ix] + [iy];
    var c := Added(Added(counts, ix), iy);
    RemoveCovers(c, history, 0);
    assert history[..0] + history[1..] == [iy];
    CoveredOnce(Subtracted(c, ix), iy);
  }

  /** Storage covering a single insert contains that value and counts it at
      least once. */
  lemma CoveredOnce(r: seq<Count>, iy: seq<nat>)
    requires InRange(iy, |r|) && |iy| > 0 && Covers(r, [iy])
    ensures AllAbove(r, iy, 0) && MinAt(r, iy) >= 1
  {
    CoversContains(r, [iy], 0);
    CoversFindCount(r, [iy], iy);
    assert Copies([iy], iy) == 1 by {
      assert [iy][..0] == [iy][1..];
    }
  }

  /** Inserts and removes interleaved: after `insert x; insert y; remove x`,
      `y` is still contained and counted at least once, for every hasher
      factory and every `x` and `y` (equal ones included). */
  method InterleavedExample(makeDefault: nat -> Hasher<int>, x: int, y: int) returns (hasY: bool, countY: Count)
    ensures hasY && countY >= 1
  {
    var f := new CountingFilter<int>.New(10, 20, makeDefault);
    ghost var c := f.storage.counts[..];
    InsertInsertRemove(c, f.IndicesOf(x), f.IndicesOf(y));
    f.Insert(x);
    f.Insert(y);
    f.Remove(x);
    hasY := f.Contains(y);
    countY := f.FindCount(y);
  }
}
