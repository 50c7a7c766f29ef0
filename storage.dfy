/** Counter storage behind a Bloom filter: a bit slice (classic filter) and a
    slice of saturating counters (counting and spectral filters). */
module Storage {

  /** Largest value of the counter type. The counter type is fixed to an
      unsigned 8-bit integer, the one the crate's own examples use. */
  const Max: nat := 255

  /** One counter of a counting / spectral storage. */
  type Count = c: nat | c <= Max

  /** Saturating reduction of a natural number to a counter. */
  function Clamp(n: nat): Count
  {
    if n <= Max then n else Max
  }

  /** The positions whose bit is set: the set a bit slice represents. */
  ghost function Members(s: seq<bool>): set<int>
  {
    set i | 0 <= i < |s| && s[i]
  }

  /** A bit slice of length `n` with every bit cleared. */
  function Zeros(n: nat): (r: seq<bool>)
    ensures |r| == n && Members(r) == {}
  {
    seq(n, _ => false)
  }

  /** A counter slice of length `n` with every counter at zero. */
  function NoCounts(n: nat): (r: seq<Count>)
    ensures |r| == n && forall k :: 0 <= k < n ==> r[k] == 0
  {
    seq(n, _ => 0)
  }

  /** Bitwise OR of two equally long bit slices. */
  function Or(a: seq<bool>, b: seq<bool>): (r: seq<bool>)
    requires |a| == |b|
    ensures |r| == |a|
    ensures Members(r) == Members(a) + Members(b)
  {
    seq(|a|, i requires 0 <= i < |a| => a[i] || b[i])
  }

  /** Bitwise AND of two equally long bit slices. */
  function And(a: seq<bool>, b: seq<bool>): (r: seq<bool>)
    requires |a| == |b|
    ensures |r| == |a|
    ensures Members(r) == Members(a) * Members(b)
  {
    seq(|a|, i requires 0 <= i < |a| => a[i] && b[i])
  }

  /** Bit-slice storage (`BitBox`): setting a bit is the only way to record
      presence, and the bit cannot be taken back. */
  class BitBox {
    const bits: array<bool>

    constructor (count: nat)
      ensures fresh(bits) && bits[..] == Zeros(count)
    {
      bits := new bool[count](_ => false);
    }

    /** Number of counters; fixed, since the array field is constant. */
    function Size(): (n: nat)
      ensures n == bits.Length
    {
      bits.Length
    }

    method Increment(index: nat)
      requires index < bits.Length
      modifies bits
      ensures bits[..] == old(bits[..])[index := true]
      ensures Members(bits[..]) == old(Members(bits[..])) + {index}
    {
      bits[index] := true;
    }

    method Clear()
      modifies bits
      ensures bits[..] == Zeros(bits.Length)
    {
      forall k | 0 <= k < bits.Length {
        bits[k] := false;
      }
    }

    /** Presence at `index`: the position is among the set ones. */
    function Query(index: nat): (b: bool)
      reads bits
      requires index < bits.Length
      ensures b <==> index in Members(bits[..])
    {
      bits[index]
    }

    /** Inserts every position set in `other` (`*self |= other`). */
    method Union(other: BitBox)
      requires other.bits.Length == bits.Length
      modifies bits
      ensures bits[..] == Or(old(bits[..]), old(other.bits[..]))
    {
      forall k | 0 <= k < bits.Length {
        bits[k] := bits[k] || other.bits[k];
      }
    }

    /** Keeps only the positions also set in `other` (`*self &= other`). */
    method Intersect(other: BitBox)
      requires other.bits.Length == bits.Length
      modifies bits
      ensures bits[..] == And(old(bits[..]), old(other.bits[..]))
    {
      forall k | 0 <= k < bits.Length {
        bits[k] := bits[k] && other.bits[k];
      }
    }
  }

  /** Saturating-counter storage (`Box<[T]>`): increments stop at `Max`, and a
      counter at `Max` is never decremented again. */
  class CountBox {
    const counts: array<Count>

    constructor (count: nat)
      ensures fresh(counts) && counts[..] == NoCounts(count)
    {
      counts := new Count[count](_ => 0);
    }

    /** Number of counters; fixed, since the array field is constant. */
    function Size(): (n: nat)
      ensures n == counts.Length
    {
      counts.Length
    }

    method Increment(index: nat)
      requires index < counts.Length
      modifies counts
      ensures counts[..] == old(counts[..])[index := Clamp(old(counts[index]) as nat + 1)]
      ensures old(counts[index]) < Max ==> counts[index] == old(counts[index]) + 1
      ensures old(counts[index]) == Max ==> counts[index] == Max
    {
      counts[index] := Clamp(counts[index] as nat + 1);
    }

    /** Removes one unit at `index`, unless the counter is saturated. The
        source subtracts without a zero check, so a zero counter is excluded. */
    method Decrement(index: nat)
      requires index < counts.Length
      requires counts[index] > 0
      modifies counts
      ensures counts[..] == old(counts[..])[index := if old(counts[index]) == Max then Max else old(counts[index]) - 1]
    {
      if counts[index] != Max {
        counts[index] := counts[index] - 1;
      }
    }

    method Clear()
      modifies counts
      ensures counts[..] == NoCounts(counts.Length)
    {
      forall k | 0 <= k < counts.Length {
        counts[k] := 0;
      }
    }

    /** The raw count at `index` (`query_count`). */
    function QueryCount(index: nat): (r: Count)
      reads counts
      requires index < counts.Length
      ensures r == counts[..][index]
    {
      counts[index]
    }

    /** Presence at `index`: defined through the raw count. */
    function Query(index: nat): (b: bool)
      reads counts
      requires index < counts.Length
      ensures b <==> counts[index] != 0
    {
      QueryCount(index) > 0
    }
  }
}
