/**
 * One counting pass of the MSD radix-8 index sorts: the histogram of the
 * eight digits, the count of non-empty buckets that decides the skip, the
 * exclusive prefix sums that place the buckets, and the stable scatter into
 * `tmp`.  The reference definitions are `Bucket` (the indexes with digit
 * `b`, in input order) and `Gather` (the buckets one after the other); the
 * methods are proved to compute them.
 */
module RadixBuckets {
  import opened Keys
  import opened RadixDigit

  /** One pass: the digit rule, the key array, and the group's low bit `startbit`. */
  datatype Pass = Pass(rule: DigitRule, keys: seq<Key>, s: nat)

  /** The digit of the key an index names (0 for an index past the array). */
  function D(p: Pass, id: nat): (d: nat)
    ensures d < 8
  {
    if id < |p.keys| && |p.keys[id]| > 0 then Digit(p.rule, p.keys[id], p.s) else 0
  }

  /** How many of `ids` have digit `b`. */
  function Count(p: Pass, ids: seq<nat>, b: nat): nat {
    if |ids| == 0 then 0
    else Count(p, ids[..|ids| - 1], b) + (if D(p, ids[|ids| - 1]) == b then 1 else 0)
  }

  /** Bucket `b`: the indexes with digit `b`, in their order in `ids`. */
  function Bucket(p: Pass, ids: seq<nat>, b: nat): (r: seq<nat>)
    ensures |r| == Count(p, ids, b)
  {
    if |ids| == 0 then []
    else Bucket(p, ids[..|ids| - 1], b) + (if D(p, ids[|ids| - 1]) == b then [ids[|ids| - 1]] else [])
  }

  /** The histogram `c[0..8)`. */
  function Counts(p: Pass, ids: seq<nat>): (c: seq<nat>)
    ensures |c| == 8
  {
    seq(8, b requires 0 <= b => Count(p, ids, b))
  }

  function Sum(c: seq<nat>): nat {
    if |c| == 0 then 0 else Sum(c[..|c| - 1]) + c[|c| - 1]
  }

  /** Where bucket `b` starts: the sum of the counts before it. */
  function Off(c: seq<nat>, b: nat): nat
    requires b <= |c|
  {
    Sum(c[..b])
  }

  /** `off` holds the start of every bucket of the histogram `c`. */
  predicate OffsetsOf(off: seq<nat>, c: seq<nat>) {
    |off| == 8 == |c| && forall b :: 0 <= b < 8 ==> off[b] == Off(c, b)
  }

  /** How many of the first `b` counts are non-zero. */
  function NonEmpty(c: seq<nat>, b: nat): nat
    requires b <= |c|
  {
    if b == 0 then 0 else NonEmpty(c, b - 1) + (if c[b - 1] != 0 then 1 else 0)
  }

  /** Buckets `b` to 7, one after the other. */
  function Gather(p: Pass, ids: seq<nat>, b: nat): seq<nat>
    decreases 8 - b
  {
    if b >= 8 then [] else Bucket(p, ids, b) + Gather(p, ids, b + 1)
  }

  // ---------------------------------------------------------------------
  // Facts about the reference definitions
  // ---------------------------------------------------------------------

  /** One more index joins the end of its own bucket and no other. */
  lemma BucketSnoc(p: Pass, ids: seq<nat>, x: nat, b: nat)
    ensures Bucket(p, ids + [x], b) == Bucket(p, ids, b) + (if D(p, x) == b then [x] else [])
    ensures Count(p, ids + [x], b) == Count(p, ids, b) + (if D(p, x) == b then 1 else 0)
  {
    assert (ids + [x])[..|ids|] == ids;
  }

  /** A bucket holds exactly the indexes with its digit. */
  lemma {:induction false} BucketMember(p: Pass, ids: seq<nat>, b: nat, x: nat)
    ensures x in Bucket(p, ids, b) <==> x in ids && D(p, x) == b
    decreases |ids|
  {
    if |ids| > 0 {
      var t := ids[..|ids| - 1];
      BucketMember(p, t, b, x);
      assert ids == t + [ids[|ids| - 1]];
    }
  }

  /** A prefix has no more of a digit than the whole. */
  lemma {:induction false} CountPrefix(p: Pass, ids: seq<nat>, m: nat, b: nat)
    requires m <= |ids|
    ensures Count(p, ids[..m], b) <= Count(p, ids, b)
    decreases |ids|
  {
    if m < |ids| {
      var t := ids[..|ids| - 1];
      assert t[..m] == ids[..m];
      CountPrefix(p, t, m, b);
    } else {
      assert ids[..m] == ids;
    }
  }

  /** Appending an index adds it to the gathered buckets from its digit on. */
  lemma {:induction false} GatherSnoc(p: Pass, ids: seq<nat>, x: nat, b: nat)
    ensures multiset(Gather(p, ids + [x], b))
         == multiset(Gather(p, ids, b)) + (if b <= D(p, x) then multiset{x} else multiset{})
    decreases 8 - b
  {
    if b < 8 {
      BucketSnoc(p, ids, x, b);
      GatherSnoc(p, ids, x, b + 1);
    }
  }

  /** The gathered buckets are a rearrangement of the input. */
  lemma {:induction false} GatherPerm(p: Pass, ids: seq<nat>)
    ensures multiset(Gather(p, ids, 0)) == multiset(ids)
    ensures |Gather(p, ids, 0)| == |ids|
    decreases |ids|
  {
    var g := Gather(p, ids, 0);
    if |ids| > 0 {
      var t, x := ids[..|ids| - 1], ids[|ids| - 1];
      GatherPerm(p, t);
      assert ids == t + [x];
      GatherSnoc(p, t, x, 0);
      assert multiset(ids) == multiset(t) + multiset{x};
    }
    assert |multiset(g)| == |multiset(ids)|;
  }

  /** Buckets `b` on hold only indexes of the input with digit `b` or more. */
  lemma {:induction false} GatherMember(p: Pass, ids: seq<nat>, b: nat, y: nat)
    requires y in Gather(p, ids, b)
    ensures y in ids && D(p, y) >= b
    decreases 8 - b
  {
    if y in Bucket(p, ids, b) {
      BucketMember(p, ids, b, y);
    } else {
      GatherMember(p, ids, b + 1, y);
    }
  }

  lemma OffStep(c: seq<nat>, b: nat)
    requires b < |c|
    ensures Off(c, b + 1) == Off(c, b) + c[b]
  {
    assert c[..b + 1][..b] == c[..b];
  }

  lemma {:induction false} OffMono(c: seq<nat>, b: nat, e: nat)
    requires b <= e <= |c|
    ensures Off(c, b) <= Off(c, e)
    decreases e - b
  {
    if b < e {
      OffStep(c, b);
      OffMono(c, b + 1, e);
    }
  }

  /** The buckets before `b` and the gathered buckets from `b` on fill the range. */
  lemma {:induction false} GatherLength(p: Pass, ids: seq<nat>, b: nat)
    requires b <= 8
    ensures Off(Counts(p, ids), b) + |Gather(p, ids, b)| == |ids|
    decreases b
  {
    var c := Counts(p, ids);
    if b == 0 {
      GatherPerm(p, ids);
    } else {
      GatherLength(p, ids, b - 1);
      OffStep(c, b - 1);
    }
  }

  /** The histogram's counts add up to the number of indexes. */
  lemma CountsSum(p: Pass, ids: seq<nat>)
    ensures Sum(Counts(p, ids)) == |ids|
  {
    var c := Counts(p, ids);
    GatherLength(p, ids, 8);
    assert c[..8] == c;
  }

  /** A digit some index carries has a non-zero count. */
  lemma CountPositive(p: Pass, ids: seq<nat>, i: nat)
    requires i < |ids|
    ensures Count(p, ids, D(p, ids[i])) > 0
  {
    BucketMember(p, ids, D(p, ids[i]), ids[i]);
  }

  /** A digit no index carries has a zero count. */
  lemma CountZero(p: Pass, ids: seq<nat>, b: nat)
    requires forall i :: 0 <= i < |ids| ==> D(p, ids[i]) != b
    ensures Count(p, ids, b) == 0
  {
    if |Bucket(p, ids, b)| > 0 {
      BucketMember(p, ids, b, Bucket(p, ids, b)[0]);
    }
  }

  lemma {:induction false} NonEmptyAtMostOne(c: seq<nat>, d: nat, n: nat)
    requires n <= |c|
    requires forall b :: 0 <= b < n && b != d ==> c[b] == 0
    ensures NonEmpty(c, n) <= 1
    ensures d >= n ==> NonEmpty(c, n) == 0
    decreases n
  {
    if n > 0 {
      NonEmptyAtMostOne(c, d, n - 1);
    }
  }

  lemma {:induction false} NonEmptyTwo(c: seq<nat>, x: nat, y: nat, n: nat)
    requires x < y < n <= |c| && c[x] != 0 && c[y] != 0
    ensures NonEmpty(c, n) >= 2
    decreases n
  {
    if y < n - 1 {
      NonEmptyTwo(c, x, y, n - 1);
    } else {
      NonEmptyPositive(c, x, n - 1);
    }
  }

  lemma {:induction false} NonEmptyPositive(c: seq<nat>, x: nat, n: nat)
    requires x < n <= |c| && c[x] != 0
    ensures NonEmpty(c, n) >= 1
    decreases n
  {
    if x < n - 1 {
      NonEmptyPositive(c, x, n - 1);
    }
  }

  /**
   * The skip test: at most one non-empty bucket exactly when every index
   * has the first one's digit.
   */
  lemma SingleBucket(p: Pass, ids: seq<nat>)
    requires |ids| > 0
    ensures NonEmpty(Counts(p, ids), 8) <= 1
        <==> forall i :: 0 <= i < |ids| ==> D(p, ids[i]) == D(p, ids[0])
  {
    var c := Counts(p, ids);
    var d0 := D(p, ids[0]);
    if forall i :: 0 <= i < |ids| ==> D(p, ids[i]) == d0 {
      forall b | 0 <= b < 8 && b != d0
        ensures c[b] == 0
      {
        CountZero(p, ids, b);
      }
      NonEmptyAtMostOne(c, d0, 8);
    } else {
      var i :| 0 <= i < |ids| && D(p, ids[i]) != d0;
      var e := D(p, ids[i]);
      CountPositive(p, ids, 0);
      CountPositive(p, ids, i);
      if d0 < e {
        NonEmptyTwo(c, d0, e, 8);
      } else {
        NonEmptyTwo(c, e, d0, 8);
      }
    }
  }

  // ---------------------------------------------------------------------
  // The loops
  // ---------------------------------------------------------------------

  /** The counting loop: `c[digit3(...)]++` over the range. */
  method Histogram(p: Pass, ids: seq<nat>) returns (c: seq<nat>)
    ensures c == Counts(p, ids)
    ensures Sum(c) == |ids|
  {
    c := [0, 0, 0, 0, 0, 0, 0, 0];
    var i := 0;
    while i < |ids|
      invariant i <= |ids| && |c| == 8
      invariant forall b :: 0 <= b < 8 ==> c[b] == Count(p, ids[..i], b)
    {
      var d := D(p, ids[i]);
      assert ids[..i + 1] == ids[..i] + [ids[i]];
      forall b | 0 <= b < 8
        ensures Count(p, ids[..i + 1], b) == Count(p, ids[..i], b) + (if d == b then 1 else 0)
      {
        BucketSnoc(p, ids[..i], ids[i], b);
      }
      c := c[d := c[d] + 1];
      i := i + 1;
    }
    assert ids[..i] == ids;
    CountsSum(p, ids);
  }

  /** The loop counting the non-empty buckets. */
  method CountNonEmpty(c: seq<nat>) returns (k: nat)
    requires |c| == 8
    ensures k == NonEmpty(c, 8)
  {
    k := 0;
    var b := 0;
    while b < 8
      invariant b <= 8 && k == NonEmpty(c, b)
    {
      if c[b] != 0 {
        k := k + 1;
      }
      b := b + 1;
    }
  }

  /** The exclusive prefix sums: `off[0] = 0`, `off[b] = off[b-1] + c[b-1]`. */
  method Offsets(c: seq<nat>) returns (off: seq<nat>)
    requires |c| == 8
    ensures OffsetsOf(off, c)
    ensures off[7] + c[7] == Sum(c)
  {
    off := [0, 0, 0, 0, 0, 0, 0, 0];
    var sum := 0;
    var b := 0;
    while b < 8
      invariant b <= 8 && |off| == 8 && sum == Off(c, b)
      invariant forall e :: 0 <= e < b ==> off[e] == Off(c, e)
    {
      off := off[b := sum];
      OffStep(c, b);
      sum := sum + c[b];
      b := b + 1;
    }
    OffStep(c, 7);
    assert c[..8] == c;
  }

  /** The first `Count(p, ids, b)` places of bucket `b`'s slot hold bucket `b`. */
  ghost predicate PlacedBucket(p: Pass, ids: seq<nat>, off: seq<nat>, tmp: seq<nat>, b: nat)
    requires b < |off|
  {
    forall k :: 0 <= k < Count(p, ids, b) ==>
      off[b] + k < |tmp| && tmp[off[b] + k] == Bucket(p, ids, b)[k]
  }

  /**
   * The scatter loop's picture after `i` indexes: each bucket's share of
   * them sits, in input order, at the start of that bucket's slot, and
   * `pos[b]` is the next free place in the slot.
   */
  ghost predicate Placed(p: Pass, ids: seq<nat>, off: seq<nat>, tmp: seq<nat>, pos: seq<nat>, i: nat) {
    && i <= |ids| && |tmp| == |ids| && |off| == 8 && |pos| == 8
    && (forall b :: 0 <= b < 8 ==> pos[b] == off[b] + Count(p, ids[..i], b))
    && (forall b :: 0 <= b < 8 ==> PlacedBucket(p, ids[..i], off, tmp, b))
  }

  /** Where the next index of each bucket goes is inside its slot. */
  lemma ScatterRoom(p: Pass, ids: seq<nat>, off: seq<nat>, i: nat, b: nat)
    requires OffsetsOf(off, Counts(p, ids)) && i <= |ids| && b < 8
    ensures off[b] + Count(p, ids[..i], b) <= Off(Counts(p, ids), b + 1) <= |ids|
  {
    var c := Counts(p, ids);
    CountsSum(p, ids);
    assert c[..8] == c;
    OffStep(c, b);
    OffMono(c, b + 1, 8);
    CountPrefix(p, ids, i, b);
  }

  /** Writing index `i` at `pos[d]` keeps bucket `b`'s placed share, and adds to it when `b == d`. */
  lemma ScatterBucket(p: Pass, ids: seq<nat>, off: seq<nat>, tmp: seq<nat>, pos: seq<nat>, i: nat, b: nat)
    requires OffsetsOf(off, Counts(p, ids)) && Placed(p, ids, off, tmp, pos, i) && i < |ids| && b < 8
    requires pos[D(p, ids[i])] < |ids|
    ensures PlacedBucket(p, ids[..i + 1], off, tmp[pos[D(p, ids[i])] := ids[i]], b)
  {
    var c := Counts(p, ids);
    var x := ids[i];
    var d := D(p, x);
    var pre := ids[..i];
    assert ids[..i + 1] == pre + [x];
    BucketSnoc(p, pre, x, b);
    assert PlacedBucket(p, pre, off, tmp, b);
    ScatterRoom(p, ids, off, i, b);
    if b < d {
      OffMono(c, b + 1, d);
    } else if b > d {
      ScatterRoom(p, ids, off, i + 1, d);
      OffMono(c, d + 1, b);
    }
  }

  /** Writing index `i` at `pos[d]` and advancing `pos[d]` extends the picture. */
  lemma ScatterStep(p: Pass, ids: seq<nat>, off: seq<nat>, tmp: seq<nat>, pos: seq<nat>, i: nat)
    requires OffsetsOf(off, Counts(p, ids)) && Placed(p, ids, off, tmp, pos, i) && i < |ids|
    ensures pos[D(p, ids[i])] < |ids|
    ensures Placed(p, ids, off, tmp[pos[D(p, ids[i])] := ids[i]], pos[D(p, ids[i]) := pos[D(p, ids[i])] + 1], i + 1)
  {
    var x := ids[i];
    var d := D(p, x);
    var pre := ids[..i];
    assert ids[..i + 1] == pre + [x];
    ScatterRoom(p, ids, off, i + 1, d);
    BucketSnoc(p, pre, x, d);
    var pos' := pos[d := pos[d] + 1];
    forall b | 0 <= b < 8
      ensures pos'[b] == off[b] + Count(p, ids[..i + 1], b)
    {
      BucketSnoc(p, pre, x, b);
    }
    var tmp', post := tmp[pos[d] := x], ids[..i + 1];
    forall b | 0 <= b < 8
      ensures PlacedBucket(p, post, off, tmp', b)
    {
      ScatterBucket(p, ids, off, tmp, pos, i, b);
    }
  }

  /** A bucket placed in full fills its slot. */
  lemma PlacedSlot(p: Pass, ids: seq<nat>, off: seq<nat>, tmp: seq<nat>, b: nat)
    requires OffsetsOf(off, Counts(p, ids)) && |tmp| == |ids| && b < 8
    requires PlacedBucket(p, ids, off, tmp, b)
    ensures Off(Counts(p, ids), b) <= Off(Counts(p, ids), b + 1) <= |tmp|
    ensures tmp[Off(Counts(p, ids), b)..Off(Counts(p, ids), b + 1)] == Bucket(p, ids, b)
  {
    ScatterRoom(p, ids, off, |ids|, b);
    assert ids[..|ids|] == ids;
    OffStep(Counts(p, ids), b);
  }

  /** A `tmp` holding every bucket at its offset is the gathered buckets from `b` on. */
  lemma {:induction false} PlacedSuffix(p: Pass, ids: seq<nat>, off: seq<nat>, tmp: seq<nat>, b: nat)
    requires OffsetsOf(off, Counts(p, ids)) && |tmp| == |ids| && b <= 8
    requires forall e :: 0 <= e < 8 ==> PlacedBucket(p, ids, off, tmp, e)
    ensures Off(Counts(p, ids), b) <= |tmp| && tmp[Off(Counts(p, ids), b)..] == Gather(p, ids, b)
    decreases 8 - b
  {
    var c := Counts(p, ids);
    GatherLength(p, ids, b);
    if b < 8 {
      PlacedSuffix(p, ids, off, tmp, b + 1);
      PlacedSlot(p, ids, off, tmp, b);
      var lo, hi := Off(c, b), Off(c, b + 1);
      assert tmp[lo..] == tmp[lo..hi] + tmp[hi..];
    }
  }

  /**
   * The scatter loop: `tmp[pos[d]++] = idx[i]` over the range.  Bucket `b`
   * lands at `[off[b], off[b] + c[b])` in input order, so `tmp` is the
   * gathered buckets.
   */
  method Scatter(p: Pass, ids: seq<nat>, off: seq<nat>) returns (tmp: seq<nat>)
    requires OffsetsOf(off, Counts(p, ids))
    ensures tmp == Gather(p, ids, 0)
    ensures multiset(tmp) == multiset(ids)
  {
    tmp := seq(|ids|, _ => 0);
    var pos := off;
    var i := 0;
    assert ids[..0] == [];
    while i < |ids|
      invariant Placed(p, ids, off, tmp, pos, i)
    {
      var x := ids[i];
      var d := D(p, x);
      ScatterStep(p, ids, off, tmp, pos, i);
      tmp := tmp[pos[d] := x];
      pos := pos[d := pos[d] + 1];
      i := i + 1;
    }
    assert ids[..i] == ids;
    PlacedSuffix(p, ids, off, tmp, 0);
    GatherPerm(p, ids);
  }
}
