/**
 * The input on which `digit3` as written misorders the radix index sorts,
 * for any key of at least two words.  Group `startbit = 64 * (W - 1) - 2`
 * is always visited (it is 21 groups below the top one) and sits at shift
 * 62 of the second word from the top, so it drops the lowest bit of the top
 * word.  `Top` has only that bit set; `Low` has only the bit just below it.
 * `Top` is the larger key, but `digit3` gives it digit 0 and `Low` digit 2,
 * so the pass puts `Top` first.
 */
module RadixFindings {
  import opened Bits
  import opened Keys
  import opened Ordering
  import opened RadixDigit
  import opened RadixBuckets
  import opened RadixRec
  import opened Radix8
  import opened RadixOrder

  /** `n` zero words. */
  function Zeros(n: nat): (k: Key)
    ensures |k| == n && forall i :: 0 <= i < n ==> k[i] == 0
  {
    seq(n, _ => 0)
  }

  /** The key `2^(64 * (W - 1))`: top word 1, the rest 0. */
  function Top(w: nat): (k: Key)
    requires w >= 2
    ensures |k| == w && k[0] == 1 && k[1] == 0
  {
    [1] + Zeros(w - 1)
  }

  /** The key `2^(64 * (W - 1) - 1)`: the top bit of the second word. */
  function Low(w: nat): (k: Key)
    requires w >= 2
    ensures |k| == w && k[0] == 0 && k[1] == 0x8000_0000_0000_0000
  {
    [0, 0x8000_0000_0000_0000] + Zeros(w - 2)
  }

  /** `Top` at index 0, then 96 copies of `Low`: one more index than the insertion cutoff. */
  function Trap(w: nat): (keys: seq<Key>)
    requires w >= 2
    ensures |keys| == 97 && keys[0] == Top(w)
    ensures forall i :: 1 <= i < 97 ==> keys[i] == Low(w)
  {
    [Top(w)] + seq(96, _ => Low(w))
  }

  /** The indexes `0, 1, ..., n - 1`. */
  function Iota(n: nat): (ids: seq<nat>)
    ensures |ids| == n && forall i :: 0 <= i < n ==> ids[i] == i
  {
    seq(n, (i: int) requires 0 <= i => i as nat)
  }

  /** The group that drops the lowest bit of the top word. */
  function Drop(w: nat): (s: nat)
    requires w >= 2
    ensures s % 64 == 62 && s + 2 == 64 * (w - 1)
  {
    64 * (w - 1) - 2
  }

  /** Above `Drop(w)`, both keys have digit 0 at every group `digit3` reads. */
  lemma HighDigits(w: nat, s: nat)
    requires w >= 2 && 64 * (w - 1) < s <= 64 * w - 3
    ensures Digit3(Top(w), s) == 0 && Digit3(Low(w), s) == 0
  {
    var l, sh := s / 64, s % 64;
    assert 64 * l + sh == s;
    assert l == w - 1 && sh >= 1;
    assert LimbAt(Top(w), l) == 1 && LimbAt(Low(w), l) == 0;
    ShrZero(1, sh);
    ShrZero(0, sh);
  }

  /** At `Drop(w)`, `Top` reads as digit 0 and `Low` as digit 2. */
  lemma DropDigits(w: nat)
    requires w >= 2
    ensures Digit3(Top(w), Drop(w)) == 0 && Digit3(Low(w), Drop(w)) == 2
  {
    var s := Drop(w);
    var l := s / 64;
    assert 64 * l + 62 == s;
    assert l == w - 2;
    var zero, high := LimbAt(Top(w), l), LimbAt(Low(w), l);
    assert zero == 0 && high == 0x8000_0000_0000_0000;
    ShrZero(zero, 62);
    ShrTopTwo(high);
  }

  /** The top bit of a word, shifted right by 62, is 2. */
  lemma ShrTopTwo(x: nat)
    requires 2 * x == WORD
    ensures Shr(x, 62) == 2
  {
    Pow2Word();
    assert Pow2(64) == 4 * Pow2(62);
    ShrTwo(x, 62);
  }

  /** Twice `2^m`, shifted right by `m`, is 2. */
  lemma ShrTwo(x: nat, m: nat)
    requires x == 2 * Pow2(m)
    ensures Shr(x, m) == 2
  {
    assert x == 2 * Pow2(m) + 0;
    ShrSplitHigh(2, 0, m, m);
  }

  /** Every pass above `Drop(w)` has one non-empty bucket, so it is skipped. */
  lemma SkipAbove(w: nat, s: nat)
    requires w >= 2 && 64 * (w - 1) < s <= 64 * w - 3
    ensures Rec(AsWritten, Trap(w), Iota(97), s) == Rec(AsWritten, Trap(w), Iota(97), s - 3)
  {
    var keys, ids := Trap(w), Iota(97);
    var p := Pass(AsWritten, keys, s);
    HighDigits(w, s);
    forall i | 0 <= i < |ids|
      ensures D(p, ids[i]) == D(p, ids[0])
    {
      assert D(p, ids[i]) == 0;
    }
    SingleBucket(p, ids);
  }

  /** Stepping down from `lo + 3 * k` to `lo + 3 * k - 3` does not change `f`. */
  ghost predicate FlatAt<T>(f: int -> T, lo: int, k: nat) {
    f(lo + 3 * k) == f(lo + 3 * k - 3)
  }

  /** When `f` is flat on each of the `j` steps above `lo`, it is the same at `hi = lo + 3 * j` as at `lo`. */
  lemma {:induction false} FlatChain<T>(f: int -> T, lo: int, j: nat, hi: int)
    requires hi == lo + 3 * j
    requires forall k: nat :: 0 < k <= j ==> FlatAt(f, lo, k)
    ensures f(hi) == f(lo)
    decreases j
  {
    if j > 0 {
      assert FlatAt(f, lo, j);
      FlatChain(f, lo, j - 1, hi - 3);
    }
  }

  /** From the top group, the recursion on `Trap(w)` goes straight down to `Drop(w)`. */
  lemma SkipToDrop(w: nat)
    requires w >= 2
    ensures Rec(AsWritten, Trap(w), Iota(97), 64 * w - 3) == Rec(AsWritten, Trap(w), Iota(97), Drop(w))
  {
    FlatAbove(w);
    FlatChain(Trail(w), Drop(w), 21, 64 * w - 3);
  }

  /** The as-written recursion on `Trap(w)`, as a function of the group. */
  function Trail(w: nat): int -> seq<nat>
    requires w >= 2
  {
    (t: int) => Rec(AsWritten, Trap(w), Iota(97), t)
  }

  /** Each of the 21 passes above `Drop(w)` is skipped. */
  lemma FlatAbove(w: nat)
    requires w >= 2
    ensures forall k: nat :: 0 < k <= 21 ==> FlatAt(Trail(w), Drop(w), k)
  {
    forall k: nat | 0 < k <= 21
      ensures FlatAt(Trail(w), Drop(w), k)
    {
      SkipAbove(w, Drop(w) + 3 * k);
    }
  }

  /** A bucket whose only member is the first index is that index alone. */
  lemma {:induction false} BucketFirstOnly(p: Pass, ids: seq<nat>, b: nat)
    requires |ids| > 0 && D(p, ids[0]) == b
    requires forall i :: 1 <= i < |ids| ==> D(p, ids[i]) != b
    ensures Bucket(p, ids, b) == [ids[0]]
    decreases |ids|
  {
    if |ids| > 1 {
      var t := ids[..|ids| - 1];
      assert t[0] == ids[0];
      assert forall i :: 1 <= i < |t| ==> t[i] == ids[i];
      BucketFirstOnly(p, t, b);
    }
  }

  /** The finished buckets only grow: the first one stays in front. */
  lemma {:induction false} RecUpToPrefix(rule: DigitRule, keys: seq<Key>, ids: seq<nat>, s: nat, b: nat)
    requires 1 <= b
    ensures RecUpTo(rule, keys, ids, s, 1) <= RecUpTo(rule, keys, ids, s, b)
    decreases b
  {
    if b > 1 {
      RecUpToPrefix(rule, keys, ids, s, b - 1);
    }
  }

  /** At `Drop(w)` the pass splits the range, with `Top` alone in bucket 0, so it comes first. */
  lemma DropPass(w: nat)
    requires w >= 2
    ensures |Rec(AsWritten, Trap(w), Iota(97), Drop(w))| > 0
    ensures Rec(AsWritten, Trap(w), Iota(97), Drop(w))[0] == 0
  {
    var keys, ids, s := Trap(w), Iota(97), Drop(w);
    var p := Pass(AsWritten, keys, s);
    DropDigits(w);
    assert D(p, ids[0]) == 0;
    assert forall i :: 1 <= i < |ids| ==> D(p, ids[i]) == 2;
    CountPositive(p, ids, 0);
    CountPositive(p, ids, 1);
    NonEmptyTwo(Counts(p, ids), 0, 2, 8);
    BucketFirstOnly(p, ids, 0);
    assert RecUpTo(AsWritten, keys, ids, s, 1) == [0];
    RecUpToPrefix(AsWritten, keys, ids, s, 8);
  }

  /** `Top` is the larger key. */
  lemma TopLarger(w: nat)
    requires w >= 2
    ensures Value(Top(w)) > Value(Low(w))
  {
    assert LexLess(Low(w), Top(w));
    LexLessValue(Low(w), Top(w));
  }

  /** The as-written sort of `Trap(w)` is the pass at `Drop(w)`, which puts index 0 first. */
  lemma AsWrittenFirst(w: nat)
    requires w >= 2
    ensures |SortIndex(AsWritten, Trap(w), Iota(97), w)| == 97
    ensures SortIndex(AsWritten, Trap(w), Iota(97), w)[0] == 0
    ensures 1 in SortIndex(AsWritten, Trap(w), Iota(97), w)
  {
    var keys, ids := Trap(w), Iota(97);
    SkipToDrop(w);
    DropPass(w);
    RecPerm(AsWritten, keys, ids, 64 * w - 3);
    assert ids[1] == 1;
    RecMemberBack(AsWritten, keys, ids, 64 * w - 3, 1);
  }

  /** What the range holds, the recursion returns. */
  lemma RecMemberBack(rule: DigitRule, keys: seq<Key>, ids: seq<nat>, s: int, y: nat)
    requires y in ids
    ensures y in Rec(rule, keys, ids, s)
  {
    RecPerm(rule, keys, ids, s);
    assert y in multiset(ids);
  }

  /**
   * The finding: on `Trap(w)` the as-written sort returns index 0, the
   * largest key, first, so its result is not sorted; the corrected digit
   * sorts the same input.
   */
  lemma AsWrittenMisorders(w: nat)
    requires w >= 2
    ensures Uniform(Trap(w), w) && Valid(Trap(w), Iota(97))
    ensures Value(Trap(w)[0]) > Value(Trap(w)[1])
    ensures |SortIndex(AsWritten, Trap(w), Iota(97), w)| == 97
    ensures SortIndex(AsWritten, Trap(w), Iota(97), w)[0] == 0
    ensures !SortedBy(SortIndex(AsWritten, Trap(w), Iota(97), w), Rank(Trap(w)))
    ensures SortedBy(SortIndex(Corrected, Trap(w), Iota(97), w), Rank(Trap(w)))
  {
    var keys, ids := Trap(w), Iota(97);
    assert Uniform(keys, w);
    assert Valid(keys, ids);
    TopLarger(w);
    AsWrittenFirst(w);
    var r := SortIndex(AsWritten, keys, ids, w);
    var j :| 0 <= j < |r| && r[j] == 1;
    assert Rank(keys)(r[0]) > Rank(keys)(r[j]);
    CorrectedSorts(keys, ids, w);
  }
}
