/** What the filter operations mean on a storage value, given the index
    sequence a value hashes to: the observable promises of the `BloomFilter`,
    `BloomFilterDelete`, `BinaryBloomFilter` and `SpectralBloomFilter`
    contracts, stated on values and proved once for every filter. */
module Filter {
  import opened Storage

  /** Every index addresses a counter of a storage of length `m`. */
  predicate InRange(idx: seq<nat>, m: nat)
  {
    forall j :: 0 <= j < |idx| ==> idx[j] < m
  }

  /** `contains` on bit storage: the bit at every index is set. */
  predicate AllSet(bits: seq<bool>, idx: seq<nat>)
    requires InRange(idx, |bits|)
  {
    forall j :: 0 <= j < |idx| ==> bits[idx[j]]
  }

  /** `contains_more_than(t)` on counter storage: every indexed count exceeds
      `t`. With `t == 0` this is `contains`, since a counter's presence is
      `count > 0`. */
  predicate AllAbove(counts: seq<Count>, idx: seq<nat>, t: nat)
    requires InRange(idx, |counts|)
  {
    forall j :: 0 <= j < |idx| ==> counts[idx[j]] > t
  }

  /** How often position `k` occurs in the index sequence `idx`. */
  function Occurrences(idx: seq<nat>, k: int): nat
    decreases |idx|
  {
    if idx == [] then 0
    else Occurrences(idx[..|idx| - 1], k) + (if idx[|idx| - 1] == k then 1 else 0)
  }

  /** `insert` on bit storage: set the bit at each index, in order. */
  function Marked(bits: seq<bool>, idx: seq<nat>): (r: seq<bool>)
    requires InRange(idx, |bits|)
    ensures |r| == |bits|
    ensures forall k :: 0 <= k < |bits| ==> r[k] == (bits[k] || k in idx)
    decreases |idx|
  {
    if idx == [] then bits
    else
      var n := |idx| - 1;
      Marked(bits, idx[..n])[idx[n] := true]
  }

  /** `insert` on counter storage: each counter gains one saturating
      increment per occurrence of its position among the indices. */
  function Added(counts: seq<Count>, idx: seq<nat>): (r: seq<Count>)
    ensures |r| == |counts|
  {
    seq(|counts|, k requires 0 <= k < |counts| => Clamp(counts[k] + Occurrences(idx, k)))
  }

  /** No counter is decremented below zero by removing `idx`: each counter is
      saturated or at least its number of occurrences in `idx`. */
  predicate Removable(counts: seq<Count>, idx: seq<nat>)
  {
    forall k :: 0 <= k < |counts| ==> counts[k] == Max || Occurrences(idx, k) <= counts[k]
  }

  /** `remove` on counter storage: each counter that is not saturated loses
      one unit per occurrence of its position among the indices. */
  function Subtracted(counts: seq<Count>, idx: seq<nat>): (r: seq<Count>)
    requires Removable(counts, idx)
    ensures |r| == |counts|
  {
    seq(|counts|, k requires 0 <= k < |counts| =>
      if counts[k] == Max then Max else counts[k] - Occurrences(idx, k))
  }

  /** `Added` is what incrementing the indices one at a time, in order,
      produces: one more index costs one saturating increment. */
  lemma AddedLast(counts: seq<Count>, idx: seq<nat>)
    requires |idx| > 0 && InRange(idx, |counts|)
    ensures var n := |idx| - 1; var p := Added(counts, idx[..n]);
      Added(counts, idx) == p[idx[n] := Clamp(p[idx[n]] as nat + 1)]
  {
    var n := |idx| - 1;
    var p := Added(counts, idx[..n]);
    var q := p[idx[n] := Clamp(p[idx[n]] as nat + 1)];
    forall k | 0 <= k < |counts|
      ensures Added(counts, idx)[k] == q[k]
    {
      assert Occurrences(idx, k) == Occurrences(idx[..n], k) + (if idx[n] == k then 1 else 0);
    }
  }

  /** Removing a prefix of a removable index sequence is safe too. */
  lemma RemovablePrefix(counts: seq<Count>, idx: seq<nat>, j: nat)
    requires j <= |idx| && Removable(counts, idx)
    ensures Removable(counts, idx[..j])
  {
    forall k | 0 <= k < |counts|
      ensures counts[k] == Max || Occurrences(idx[..j], k) <= counts[k]
    {
      OccurrencesOfPrefix(idx, j, k);
    }
  }

  /** `Subtracted` is what decrementing the indices one at a time, in order,
      produces: one more index costs one decrement, never of a zero counter,
      skipped at a saturated counter. */
  lemma SubtractedLast(counts: seq<Count>, idx: seq<nat>)
    requires |idx| > 0 && InRange(idx, |counts|) && Removable(counts, idx)
    ensures Removable(counts, idx[..|idx| - 1])
    ensures var n := |idx| - 1; var p := Subtracted(counts, idx[..n]);
      p[idx[n]] > 0 &&
      Subtracted(counts, idx) == p[idx[n] := if p[idx[n]] == Max then Max else p[idx[n]] - 1]
  {
    var n := |idx| - 1;
    RemovablePrefix(counts, idx, n);
    var p := Subtracted(counts, idx[..n]);
    assert Occurrences(idx, idx[n]) == Occurrences(idx[..n], idx[n]) + 1;
    var q := p[idx[n] := if p[idx[n]] == Max then Max else p[idx[n]] - 1];
    forall k | 0 <= k < |counts|
      ensures Subtracted(counts, idx)[k] == q[k]
    {
      assert Occurrences(idx, k) == Occurrences(idx[..n], k) + (if idx[n] == k then 1 else 0);
    }
  }

  /** `find_count`: the smallest count at the indices. */
  function MinAt(counts: seq<Count>, idx: seq<nat>): (r: Count)
    requires |idx| > 0 && InRange(idx, |counts|)
    ensures forall j :: 0 <= j < |idx| ==> r <= counts[idx[j]]
    ensures exists j :: 0 <= j < |idx| && r == counts[idx[j]]
    decreases |idx|
  {
    if |idx| == 1 then counts[idx[0]]
    else
      var m := MinAt(counts, idx[1..]);
      if counts[idx[0]] <= m then counts[idx[0]] else m
  }

  /** No false negatives: after `insert`, the inserted value is contained and
      so is everything that was contained before. */
  lemma MarkedKeepsMembers(bits: seq<bool>, idx: seq<nat>, other: seq<nat>)
    requires InRange(idx, |bits|) && InRange(other, |bits|)
    ensures AllSet(Marked(bits, idx), idx)
    ensures AllSet(bits, other) ==> AllSet(Marked(bits, idx), other)
  {
  }

  /** Inserting the same value twice into bit storage is the same as once. */
  lemma MarkedIdempotent(bits: seq<bool>, idx: seq<nat>)
    requires InRange(idx, |bits|)
    ensures Marked(Marked(bits, idx), idx) == Marked(bits, idx)
  {
  }

  /** `union` is a superset: what either side contained, the result contains. */
  lemma UnionKeepsMembers(a: seq<bool>, b: seq<bool>, idx: seq<nat>)
    requires |a| == |b| && InRange(idx, |a|)
    ensures AllSet(a, idx) || AllSet(b, idx) ==> AllSet(Or(a, b), idx)
  {
  }

  /** `intersect` contains exactly what both sides contained. */
  lemma IntersectKeepsCommon(a: seq<bool>, b: seq<bool>, idx: seq<nat>)
    requires |a| == |b| && InRange(idx, |a|)
    ensures AllSet(And(a, b), idx) <==> AllSet(a, idx) && AllSet(b, idx)
  {
  }

  /** After a clear, nothing with at least one index is contained. */
  lemma ClearedContainsNothing(m: nat, idx: seq<nat>)
    requires |idx| > 0 && InRange(idx, m)
    ensures !AllSet(Zeros(m), idx)
    ensures !AllAbove(NoCounts(m), idx, 0)
  {
    assert !Zeros(m)[idx[0]];
  }

  /** No false negatives for counting storage: after `insert`, the inserted
      value is contained, and every true `contains_more_than` stays true. */
  lemma AddedKeepsMembers(counts: seq<Count>, idx: seq<nat>, other: seq<nat>, t: nat)
    requires InRange(idx, |counts|) && InRange(other, |counts|)
    ensures AllAbove(Added(counts, idx), idx, 0)
    ensures AllAbove(counts, other, t) ==> AllAbove(Added(counts, idx), other, t)
  {
    forall j | 0 <= j < |idx|
      ensures Added(counts, idx)[idx[j]] > 0
    {
      OccursAtIndex(idx, j);
    }
  }

  /** What `insert` added, `remove` may always take away again. */
  lemma AddedIsRemovable(counts: seq<Count>, idx: seq<nat>)
    requires InRange(idx, |counts|)
    ensures Removable(Added(counts, idx), idx)
  {
  }

  /** `remove` right after `insert` restores the storage exactly when no
      counter the value touches reached `Max`. */
  lemma RemoveUndoesInsert(counts: seq<Count>, idx: seq<nat>)
    requires InRange(idx, |counts|)
    requires forall k :: 0 <= k < |counts| && Occurrences(idx, k) > 0 ==> counts[k] + Occurrences(idx, k) < Max
    ensures Removable(Added(counts, idx), idx)
    ensures Subtracted(Added(counts, idx), idx) == counts
  {
    AddedIsRemovable(counts, idx);
    var r := Subtracted(Added(counts, idx), idx);
    assert forall k :: 0 <= k < |counts| ==> r[k] == counts[k];
  }

  /** `remove` right after `insert` never lowers a counter, whatever the
      saturation: a value contained (more than `t` times) before still is. */
  lemma RemoveAfterInsertNeverLowers(counts: seq<Count>, idx: seq<nat>, other: seq<nat>, t: nat)
    requires InRange(idx, |counts|) && InRange(other, |counts|)
    ensures Removable(Added(counts, idx), idx)
    ensures forall k :: 0 <= k < |counts| ==> counts[k] <= Subtracted(Added(counts, idx), idx)[k]
    ensures AllAbove(counts, other, t) ==> AllAbove(Subtracted(Added(counts, idx), idx), other, t)
  {
    AddedIsRemovable(counts, idx);
  }

  /** The deletion promise of `remove`: when no index occurs `Max` times or
      more, `insert` then `remove` gives every value back its `contains`. */
  lemma RemoveAfterInsertKeepsContains(counts: seq<Count>, idx: seq<nat>, other: seq<nat>)
    requires InRange(idx, |counts|) && InRange(other, |counts|)
    requires forall k :: 0 <= k < |counts| ==> Occurrences(idx, k) < Max
    ensures Removable(Added(counts, idx), idx)
    ensures AllAbove(Subtracted(Added(counts, idx), idx), other, 0) == AllAbove(counts, other, 0)
  {
    AddedIsRemovable(counts, idx);
    var r := Subtracted(Added(counts, idx), idx);
    assert forall k :: 0 <= k < |counts| ==> (r[k] > 0 <==> counts[k] > 0);
  }

  /** `remove` of a value never inserted can lose another value: the warning
      on `BloomFilterDelete::remove`. */
  lemma RemoveOfAbsentCanLoseOthers()
    ensures Removable([1], [0]) && AllAbove([1], [0], 0)
    ensures !AllAbove(Subtracted([1], [0]), [0], 0)
  {
    assert Occurrences([0], 0) == 1;
  }

  /** `contains_more_than(t)` is `find_count > t`. */
  lemma AboveIffMinAbove(counts: seq<Count>, idx: seq<nat>, t: nat)
    requires |idx| > 0 && InRange(idx, |counts|)
    ensures AllAbove(counts, idx, t) <==> MinAt(counts, idx) > t
  {
  }

  /** `find_count` grows by at least one per `insert`, up to saturation: if
      it was at least `n` (or `Max`) before, it is at least `n + 1` (or `Max`)
      after. */
  lemma InsertRaisesMin(counts: seq<Count>, idx: seq<nat>, n: nat)
    requires |idx| > 0 && InRange(idx, |counts|)
    requires MinAt(counts, idx) >= Clamp(n)
    ensures MinAt(Added(counts, idx), idx) >= Clamp(n + 1)
  {
    var a := Added(counts, idx);
    forall j | 0 <= j < |idx|
      ensures a[idx[j]] >= Clamp(n + 1)
    {
      OccursAtIndex(idx, j);
    }
  }

  /** The storage after inserting the same value `n` times. */
  function AddedTimes(counts: seq<Count>, idx: seq<nat>, n: nat): (r: seq<Count>)
    ensures |r| == |counts|
  {
    if n == 0 then counts else Added(AddedTimes(counts, idx, n - 1), idx)
  }

  /** After `n` back-to-back inserts of a value, whatever the storage held
      before, its `find_count` estimate is at least `n` (or `Max`). */
  lemma {:induction false} FindCountAtLeastInserts(counts: seq<Count>, idx: seq<nat>, n: nat)
    requires |idx| > 0 && InRange(idx, |counts|)
    ensures MinAt(AddedTimes(counts, idx, n), idx) >= Clamp(n)
  {
    if n > 0 {
      FindCountAtLeastInserts(counts, idx, n - 1);
      InsertRaisesMin(AddedTimes(counts, idx, n - 1), idx, n - 1);
    }
  }

  /** How often position `k` is incremented by the inserts whose index
      sequences are `ins`. */
  function Total(ins: seq<seq<nat>>, k: int): nat
    decreases |ins|
  {
    if ins == [] then 0
    else Total(ins[..|ins| - 1], k) + Occurrences(ins[|ins| - 1], k)
  }

  /** How many of the inserts `ins` have the index sequence `idx`. */
  function Copies(ins: seq<seq<nat>>, idx: seq<nat>): nat
    decreases |ins|
  {
    if ins == [] then 0
    else Copies(ins[..|ins| - 1], idx) + (if ins[|ins| - 1] == idx then 1 else 0)
  }

  /** Counter storage accounts for a history of inserts not yet removed,
      `ins`, taken in any order: every counter is saturated or at least the
      number of times those inserts incremented it. Fresh or cleared storage
      covers the empty history. */
  predicate Covers(counts: seq<Count>, ins: seq<seq<nat>>)
  {
    forall k :: 0 <= k < |counts| ==> counts[k] == Max || Total(ins, k) <= counts[k]
  }

  /** `insert` keeps the storage covering its history, one insert longer. */
  lemma InsertCovers(counts: seq<Count>, ins: seq<seq<nat>>, idx: seq<nat>)
    requires Covers(counts, ins)
    ensures Covers(Added(counts, idx), ins + [idx])
  {
    forall k | 0 <= k < |counts|
      ensures Added(counts, idx)[k] == Max || Total(ins + [idx], k) <= Added(counts, idx)[k]
    {
      assert (ins + [idx])[..|ins|] == ins;
    }
  }

  /** `remove` of any insert of the history is safe, whatever was inserted
      or removed in between: no zero counter is decremented, and the storage
      then covers the history without that insert. */
  lemma RemoveCovers(counts: seq<Count>, ins: seq<seq<nat>>, i: nat)
    requires i < |ins| && Covers(counts, ins)
    ensures Removable(counts, ins[i])
    ensures Covers(Subtracted(counts, ins[i]), ins[..i] + ins[i + 1..])
  {
    forall k | 0 <= k < |counts|
      ensures Total(ins, k) == Total(ins[..i] + ins[i + 1..], k) + Occurrences(ins[i], k)
    {
      TotalWithout(ins, i, k);
    }
  }

  /** No false negatives over any history: a value inserted and not removed
      since is contained. */
  lemma CoversContains(counts: seq<Count>, ins: seq<seq<nat>>, i: nat)
    requires i < |ins| && InRange(ins[i], |counts|) && Covers(counts, ins)
    ensures AllAbove(counts, ins[i], 0)
  {
    forall j | 0 <= j < |ins[i]|
      ensures counts[ins[i][j]] > 0
    {
      OccursAtIndex(ins[i], j);
      TotalWithout(ins, i, ins[i][j]);
    }
  }

  /** `find_count` never underestimates, over any history: its estimate for
      a value is at least the number of inserts of the value's index sequence
      not yet removed, or `Max`. */
  lemma CoversFindCount(counts: seq<Count>, ins: seq<seq<nat>>, idx: seq<nat>)
    requires |idx| > 0 && InRange(idx, |counts|) && Covers(counts, ins)
    ensures MinAt(counts, idx) >= Clamp(Copies(ins, idx))
  {
    forall j | 0 <= j < |idx|
      ensures counts[idx[j]] >= Clamp(Copies(ins, idx))
    {
      OccursAtIndex(idx, j);
      TotalAtLeastCopies(ins, idx, idx[j]);
    }
  }

  /** Counting over two histories one after the other adds up. */
  lemma {:induction false} TotalConcat(a: seq<seq<nat>>, b: seq<seq<nat>>, k: int)
    ensures Total(a + b, k) == Total(a, k) + Total(b, k)
    decreases |b|
  {
    if b == [] {
      assert a + b == a;
    } else {
      var n := |b| - 1;
      assert (a + b)[..|a + b| - 1] == a + b[..n];
      TotalConcat(a, b[..n], k);
    }
  }

  /** Taking insert `i` out of a history takes away its occurrences. */
  lemma TotalWithout(ins: seq<seq<nat>>, i: nat, k: int)
    requires i < |ins|
    ensures Total(ins, k) == Total(ins[..i] + ins[i + 1..], k) + Occurrences(ins[i], k)
  {
    assert ins == ins[..i] + [ins[i]] + ins[i + 1..];
    assert [ins[i]][..0] == ins[..0];
    TotalConcat(ins[..i] + [ins[i]], ins[i + 1..], k);
    TotalConcat(ins[..i], [ins[i]], k);
    TotalConcat(ins[..i], ins[i + 1..], k);
  }

  /** Each insert with index sequence `idx` increments every position of
      `idx` at least once. */
  lemma {:induction false} TotalAtLeastCopies(ins: seq<seq<nat>>, idx: seq<nat>, k: int)
    requires Occurrences(idx, k) > 0
    ensures Copies(ins, idx) <= Total(ins, k)
    decreases |ins|
  {
    if ins != [] {
      TotalAtLeastCopies(ins[..|ins| - 1], idx, k);
    }
  }

  /** Every entry of an index sequence occurs in it. */
  lemma {:induction false} OccursAtIndex(idx: seq<nat>, j: nat)
    requires j < |idx|
    ensures Occurrences(idx, idx[j]) > 0
    decreases |idx|
  {
    if j < |idx| - 1 {
      var n := |idx| - 1;
      assert idx[..n][j] == idx[j];
      OccursAtIndex(idx[..n], j);
    }
  }

  /** A prefix holds each position at most as often as the whole sequence,
      and one fewer time than the next prefix at the entry that follows. */
  lemma {:induction false} OccurrencesOfPrefix(idx: seq<nat>, j: nat, k: int)
    requires j <= |idx|
    ensures Occurrences(idx[..j], k) <= Occurrences(idx, k)
    decreases |idx|
  {
    if j < |idx| {
      var n := |idx| - 1;
      assert idx[..n][..j] == idx[..j];
      OccurrencesOfPrefix(idx[..n], j, k);
    } else {
      assert idx[..j] == idx;
    }
  }

  /** A value can occur no more often in an index sequence than its length. */
  lemma {:induction false} OccurrencesAtMostLength(idx: seq<nat>, k: int)
    ensures Occurrences(idx, k) <= |idx|
    decreases |idx|
  {
    if idx != [] {
      OccurrencesAtMostLength(idx[..|idx| - 1], k);
    }
  }
}
