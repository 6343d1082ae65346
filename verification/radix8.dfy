/**
 * The methods of `msd_radix8_rec` and its entry point, for either digit
 * rule and any key width (4 words for the 256-bit sort, 8 for the 512-bit
 * one), each proved to compute `Rec`.  The sort permutes an index array;
 * the keys are only read.  Also here: the index insertion sort, and the
 * facts about `Rec` the loop proofs need: it only rearranges the range, and
 * one round of the bucket loop finishes one bucket.
 */
module Radix8 {
  import opened Bits
  import opened Keys
  import opened Ordering
  import opened RadixDigit
  import opened RadixBuckets
  import opened RadixRec

  // ---------------------------------------------------------------------
  // The index insertion sort
  // ---------------------------------------------------------------------

  /** Insert `r[i]` into the sorted `r[..i]`, shifting while it is less than the index before the hole. */
  method InsertIdx(keys: seq<Key>, r: seq<nat>, i: nat, ghost width: nat) returns (t: seq<nat>)
    requires Uniform(keys, width) && Valid(keys, r) && i < |r|
    ensures |t| == |r|
    ensures t[..i + 1] == Insert(r[..i], r[i], Rank(keys), true)
    ensures t[i + 1..] == r[i + 1..]
  {
    var x := r[i];
    ghost var s := r[..i];
    t := r;
    HoleStart(t, r, i);
    var hole := i;
    while hole > 0
      invariant Hole(t, s, r, i, hole)
      invariant Insert(s, x, Rank(keys), true) == Insert(s[..hole], x, Rank(keys), true) + s[hole..]
    {
      HoleShift(t, s, r, i, hole);
      if !LessByIdx(keys, x, t[hole - 1]) {
        break;
      }
      InsertStep(s, x, Rank(keys), true, hole);
      t := t[hole := t[hole - 1]];
      hole := hole - 1;
    }
    InsertStop(s, x, Rank(keys), true, hole);
    HoleFill(t, s, r, i, hole, x);
    t := t[hole := x];
  }

  /**
   * `insertion_sort_idx`: the stable insertion sort of the indexes by their
   * keys; sorted, a permutation, and equal keys keep their input order.
   */
  method InsertionSortIdx(keys: seq<Key>, ids: seq<nat>, ghost width: nat) returns (r: seq<nat>)
    requires Uniform(keys, width) && Valid(keys, ids)
    ensures r == InsertionSort(ids, Rank(keys), true)
    ensures multiset(r) == multiset(ids) && SortedBy(r, Rank(keys))
    ensures forall v: nat :: Tied(r, Rank(keys), v) == Tied(ids, Rank(keys), v)
  {
    r := ids;
    if |ids| > 0 {
      SortedPrefixStart(ids, Rank(keys), true);
      var i := 1;
      while i < |ids|
        invariant SortedPrefix(r, ids, Rank(keys), true, i)
        invariant multiset(r) == multiset(ids)
      {
        ValidPerm(keys, ids, r);
        var t := InsertIdx(keys, r, i, width);
        SortedPrefixAdvance(ids, r, t, Rank(keys), true, i);
        r, i := t, i + 1;
        InsertionSortPerm(ids[..i], Rank(keys), true);
        assert r == r[..i] + r[i..] && ids == ids[..i] + ids[i..];
      }
      SortedPrefixDone(r, ids, Rank(keys), true);
    }
    InsertionSortPerm(ids, Rank(keys), true);
    InsertionSortSorted(ids, Rank(keys), true);
    forall v: nat
      ensures Tied(r, Rank(keys), v) == Tied(ids, Rank(keys), v)
    {
      InsertionSortStable(ids, Rank(keys), v);
    }
  }

  /** A rearrangement of valid indexes is valid. */
  lemma ValidPerm(keys: seq<Key>, ids: seq<nat>, r: seq<nat>)
    requires Valid(keys, ids) && multiset(r) <= multiset(ids)
    ensures Valid(keys, r)
  {
    forall i | 0 <= i < |r|
      ensures r[i] < |keys|
    {
      assert r[i] in multiset(r);
      assert r[i] in ids;
    }
  }

  // ---------------------------------------------------------------------
  // Permutation
  // ---------------------------------------------------------------------

  /** The recursion only rearranges the range. */
  lemma {:induction false} RecPerm(rule: DigitRule, keys: seq<Key>, ids: seq<nat>, s: int)
    ensures multiset(Rec(rule, keys, ids, s)) == multiset(ids)
    ensures |Rec(rule, keys, ids, s)| == |ids|
    decreases Level(s), 10
  {
    if |ids| <= 1 {
    } else if s < 0 || |ids| <= CUTOFF {
      InsertionSortPerm(ids, Rank(keys), true);
    } else if NonEmpty(Counts(Pass(rule, keys, s), ids), 8) <= 1 {
      RecPerm(rule, keys, ids, s - 3);
    } else {
      BucketsPerm(rule, keys, ids, s);
    }
    PermLength(Rec(rule, keys, ids, s), ids);
  }

  /** Sorting every bucket in turn rearranges the whole range. */
  lemma BucketsPerm(rule: DigitRule, keys: seq<Key>, ids: seq<nat>, s: nat)
    ensures multiset(RecUpTo(rule, keys, ids, s, 8)) == multiset(ids)
    decreases Level(s), 9
  {
    var p := Pass(rule, keys, s);
    RecUpToPerm(rule, keys, ids, s, 8);
    GatherPerm(p, ids);
    assert Gather(p, ids, 8) == [];
  }

  /** Sequences with the same elements have the same length. */
  lemma PermLength(a: seq<nat>, b: seq<nat>)
    requires multiset(a) == multiset(b)
    ensures |a| == |b|
  {
    assert |multiset(a)| == |multiset(b)|;
  }

  /** What the recursion returns comes from the range. */
  lemma RecMember(rule: DigitRule, keys: seq<Key>, ids: seq<nat>, s: int, y: nat)
    requires y in Rec(rule, keys, ids, s)
    ensures y in ids
  {
    RecPerm(rule, keys, ids, s);
    assert y in multiset(Rec(rule, keys, ids, s));
  }

  /** The finished buckets and the ones still to do are, together, the scattered range. */
  lemma RecUpToPerm(rule: DigitRule, keys: seq<Key>, ids: seq<nat>, s: nat, b: nat)
    requires b <= 8
    ensures multiset(RecUpTo(rule, keys, ids, s, b)) + multiset(Gather(Pass(rule, keys, s), ids, b))
         == multiset(Gather(Pass(rule, keys, s), ids, 0))
    decreases Level(s), b
  {
    if b > 0 {
      RecUpToPerm(rule, keys, ids, s, b - 1);
      RecUpToStep(rule, keys, ids, s, b);
    } else {
      EmptyUnion(RecUpTo(rule, keys, ids, s, b), multiset(Gather(Pass(rule, keys, s), ids, b)));
    }
  }

  /** One more finished bucket: it moves, rearranged, from the pending side to the finished side. */
  lemma RecUpToStep(rule: DigitRule, keys: seq<Key>, ids: seq<nat>, s: nat, b: nat)
    requires 0 < b <= 8
    ensures multiset(RecUpTo(rule, keys, ids, s, b)) + multiset(Gather(Pass(rule, keys, s), ids, b))
         == multiset(RecUpTo(rule, keys, ids, s, b - 1)) + multiset(Gather(Pass(rule, keys, s), ids, b - 1))
    decreases Level(s), 0
  {
    var p := Pass(rule, keys, s);
    var bk := Bucket(p, ids, b - 1);
    RecPerm(rule, keys, bk, s - 3);
    assert RecUpTo(rule, keys, ids, s, b) == RecUpTo(rule, keys, ids, s, b - 1) + Rec(rule, keys, bk, s - 3);
    assert Gather(p, ids, b - 1) == bk + Gather(p, ids, b);
  }

  /** Nothing added to a multiset leaves it as it is. */
  lemma EmptyUnion(a: seq<nat>, m: multiset<nat>)
    requires a == []
    ensures multiset(a) + m == m
  {
  }

  /** A finished bucket holds indexes of the range whose digit is below `b`. */
  lemma {:induction false} RecUpToMember(rule: DigitRule, keys: seq<Key>, ids: seq<nat>, s: nat, b: nat, x: nat)
    requires x in RecUpTo(rule, keys, ids, s, b)
    ensures x in ids && D(Pass(rule, keys, s), x) < b
    decreases b
  {
    if b == 0 {
      assert false;
    } else {
      var p := Pass(rule, keys, s);
      var done, bk := RecUpTo(rule, keys, ids, s, b - 1), Bucket(p, ids, b - 1);
      assert RecUpTo(rule, keys, ids, s, b) == done + Rec(rule, keys, bk, s - 3);
      if x in done {
        RecUpToMember(rule, keys, ids, s, b - 1, x);
      } else {
        RecPerm(rule, keys, bk, s - 3);
        assert x in multiset(Rec(rule, keys, bk, s - 3));
        BucketMember(p, ids, b - 1, x);
      }
    }
  }

  /** The finished buckets fill exactly the slots before bucket `b`. */
  lemma {:induction false} RecUpToLength(rule: DigitRule, keys: seq<Key>, ids: seq<nat>, s: nat, b: nat)
    requires b <= 8
    ensures |RecUpTo(rule, keys, ids, s, b)| == Off(Counts(Pass(rule, keys, s), ids), b)
    decreases b
  {
    if b > 0 {
      RecUpToLength(rule, keys, ids, s, b - 1);
      RecPerm(rule, keys, Bucket(Pass(rule, keys, s), ids, b - 1), s - 3);
      OffStep(Counts(Pass(rule, keys, s), ids), b - 1);
    }
  }

  /** Indexes in a bucket come from the range, so they are valid. */
  lemma ValidBucket(p: Pass, keys: seq<Key>, ids: seq<nat>, b: nat)
    requires Valid(keys, ids)
    ensures Valid(keys, Bucket(p, ids, b))
  {
    var bk := Bucket(p, ids, b);
    forall i | 0 <= i < |bk|
      ensures bk[i] < |keys|
    {
      BucketMember(p, ids, b, bk[i]);
    }
  }

  // ---------------------------------------------------------------------
  // The method
  // ---------------------------------------------------------------------

  /**
   * One round of the bucket loop: bucket `b` sits at `[o, o + sz)` with
   * `o = off[b]` and `sz = c[b]`, and replacing it with its sorted form
   * finishes it; a bucket of at most one index is finished already.
   */
  lemma BucketRound(rule: DigitRule, keys: seq<Key>, ids: seq<nat>, s: nat, b: nat, r: seq<nat>, o: nat, sz: nat)
    requires Valid(keys, ids)
    requires b < 8 && r == RecUpTo(rule, keys, ids, s, b) + Gather(Pass(rule, keys, s), ids, b)
    requires o == Off(Counts(Pass(rule, keys, s), ids), b) && sz == Counts(Pass(rule, keys, s), ids)[b]
    ensures o + sz <= |r| && Valid(keys, r[o..o + sz])
    ensures r[..o] + Rec(rule, keys, r[o..o + sz], s - 3) + r[o + sz..]
         == RecUpTo(rule, keys, ids, s, b + 1) + Gather(Pass(rule, keys, s), ids, b + 1)
    ensures sz <= 1 ==> r == RecUpTo(rule, keys, ids, s, b + 1) + Gather(Pass(rule, keys, s), ids, b + 1)
  {
    var p := Pass(rule, keys, s);
    BucketShape(rule, keys, ids, s, b, r, o, sz);
    ValidBucket(p, keys, ids, b);
    if sz <= 1 {
      var bk := Bucket(p, ids, b);
      assert Rec(rule, keys, bk, s - 3) == bk;
      AppendShift(RecUpTo(rule, keys, ids, s, b), Rec(rule, keys, bk, s - 3), bk, Gather(p, ids, b + 1));
    }
  }

  /** Before the round, `r` is the finished buckets, then bucket `b`, then the rest, at the offsets. */
  lemma BucketShape(rule: DigitRule, keys: seq<Key>, ids: seq<nat>, s: nat, b: nat, r: seq<nat>, o: nat, sz: nat)
    requires b < 8 && r == RecUpTo(rule, keys, ids, s, b) + Gather(Pass(rule, keys, s), ids, b)
    requires o == Off(Counts(Pass(rule, keys, s), ids), b) && sz == Counts(Pass(rule, keys, s), ids)[b]
    ensures o + sz <= |r|
    ensures r[..o] == RecUpTo(rule, keys, ids, s, b) && r[o..o + sz] == Bucket(Pass(rule, keys, s), ids, b)
    ensures r[o + sz..] == Gather(Pass(rule, keys, s), ids, b + 1)
  {
    var p := Pass(rule, keys, s);
    RecUpToLength(rule, keys, ids, s, b);
    Splice(RecUpTo(rule, keys, ids, s, b), Bucket(p, ids, b), Gather(p, ids, b + 1), r, o, sz);
  }

  /** Cutting `done + bk + rest` at the lengths of its parts gives the parts back. */
  lemma Splice(done: seq<nat>, bk: seq<nat>, rest: seq<nat>, r: seq<nat>, o: nat, sz: nat)
    requires r == done + bk + rest && o == |done| && sz == |bk|
    ensures o + sz <= |r| && r[..o] == done && r[o..o + sz] == bk && r[o + sz..] == rest
  {
  }

  /**
   * `msd_radix8_rec`: count the digits, skip a pass with one non-empty
   * bucket, otherwise scatter stably by digit and sort every bucket of
   * more than one index on the next group.
   */
  method MsdRadix8Rec(rule: DigitRule, keys: seq<Key>, ids: seq<nat>, s: int, ghost width: nat) returns (r: seq<nat>)
    requires Uniform(keys, width) && Valid(keys, ids)
    ensures r == Rec(rule, keys, ids, s)
    decreases Level(s), 2
  {
    if |ids| <= 1 {
      return ids;
    }
    if s < 0 || |ids| <= CUTOFF {
      r := InsertionSortIdx(keys, ids, width);
      return;
    }
    var p := Pass(rule, keys, s);
    var c := Histogram(p, ids);
    var nonempty := CountNonEmpty(c);
    if nonempty <= 1 {
      r := MsdRadix8Rec(rule, keys, ids, s - 3, width);
      return;
    }
    var off := Offsets(c);
    var tmp := Scatter(p, ids, off);
    r := SortBuckets(rule, keys, ids, s, c, off, tmp, width);
  }

  /** The bucket loop: sort every bucket of more than one index in place, on the next group. */
  method SortBuckets(rule: DigitRule, keys: seq<Key>, ids: seq<nat>, s: nat, c: seq<nat>, off: seq<nat>,
                     tmp: seq<nat>, ghost width: nat) returns (r: seq<nat>)
    requires Uniform(keys, width) && Valid(keys, ids)
    requires c == Counts(Pass(rule, keys, s), ids) && OffsetsOf(off, c)
    requires tmp == Gather(Pass(rule, keys, s), ids, 0)
    ensures r == RecUpTo(rule, keys, ids, s, 8)
    decreases Level(s), 1
  {
    r := tmp;
    var b := 0;
    while b < 8
      invariant b <= 8
      invariant r == RecUpTo(rule, keys, ids, s, b) + Gather(Pass(rule, keys, s), ids, b)
    {
      r := SortBucket(rule, keys, ids, s, b, r, off[b], c[b], width);
      b := b + 1;
    }
    assert Gather(Pass(rule, keys, s), ids, 8) == [];
  }

  /** One round of the bucket loop: `if (sz > 1) msd_radix8_rec(idx + off[b], ..., sz, startbit - 3)`. */
  method SortBucket(rule: DigitRule, keys: seq<Key>, ids: seq<nat>, s: nat, b: nat, r: seq<nat>, o: nat, sz: nat,
                    ghost width: nat) returns (r': seq<nat>)
    requires Uniform(keys, width) && Valid(keys, ids)
    requires b < 8 && r == RecUpTo(rule, keys, ids, s, b) + Gather(Pass(rule, keys, s), ids, b)
    requires o == Off(Counts(Pass(rule, keys, s), ids), b) && sz == Counts(Pass(rule, keys, s), ids)[b]
    ensures r' == RecUpTo(rule, keys, ids, s, b + 1) + Gather(Pass(rule, keys, s), ids, b + 1)
    decreases Level(s), 0
  {
    BucketRound(rule, keys, ids, s, b, r, o, sz);
    r' := r;
    if sz > 1 {
      var sub := MsdRadix8Rec(rule, keys, r[o..o + sz], s - 3, width);
      r' := r[..o] + sub + r[o + sz..];
    }
  }
}
