/**
 * The fixed 128-bit pipe sort (`pipe_sort_u128`), its C and C++ twins being
 * line-for-line the same algorithm.  Each round ORs together every key's
 * XOR with the first key; a zero result means the range is one repeated
 * key, otherwise the highest set bit of the diff is a bit every key agrees
 * on above and some key differs at, so partitioning on it splits the range
 * strictly, the left part below the right part.  The smaller side is
 * sorted by a recursive call and the larger one by the next round; ranges
 * of at most 48 keys go to a stable insertion sort.
 *
 * The array is a sequence; the sorted pieces to the left and right of the
 * range still being worked on are kept explicitly (`pre` and `suf`) where
 * the sources move the pointer `a` and shrink `n`.
 */
module PipeSortU128 {
  import opened Bits
  import opened Ordering
  import opened U128Key

  /** `INSERTION_CUTOFF`: ranges at or below this size are insertion sorted. */
  const CUTOFF: nat := 48

  // ---------------------------------------------------------------------
  // Highest set bit
  // ---------------------------------------------------------------------

  /**
   * `clz64_nonzero`, the portable loop: shift left until the top bit is
   * set, counting the shifts.  No shift loses a bit, since the top bit is
   * clear before each one.
   */
  method ClzNonzero(x: Word) returns (n: nat)
    requires x != 0
    ensures n == 63 - MsbPos(x)
    ensures n < 64
  {
    MsbPosWord(x);
    n := 0;
    var y: Word := x;
    while Bit(y, 63) == 0
      invariant 0 < y && MsbPos(y) == MsbPos(x) + n
      invariant MsbPos(y) < 64
      decreases 63 - MsbPos(y)
    {
      TopBit(y);
      ShiftLeftMsb(y);
      n := n + 1;
      y := (y * 2) % WORD;
    }
    TopBit(y);
  }

  /** Shifting left by one a word whose highest set bit is below 63 loses nothing and raises that bit by one. */
  lemma ShiftLeftMsb(y: nat)
    requires 0 < y && MsbPos(y) < 63
    ensures y * 2 < WORD && (y * 2) % WORD == y * 2
    ensures MsbPos(y * 2) == MsbPos(y) + 1
  {
    var m, z := MsbPos(y), y * 2;
    assert z < Pow2(m + 2);
    Pow2Mono(m + 2, 64);
    Pow2Word();
    ModSmall(z, WORD);
    assert z / 2 == y;
  }

  lemma ModSmall(z: nat, d: nat)
    requires z < d
    ensures z % d == z
  {
  }

  /**
   * `highest_set_bit_index_u128`: the position of the top set bit of a
   * non-zero diff, looked for in `hi` first.
   */
  method HighestSetBit(dh: Word, dl: Word) returns (idx: nat)
    requires dh != 0 || dl != 0
    ensures idx < 128 && BitOf(U128(dh, dl), idx) == 1
    ensures forall k :: idx < k < 128 ==> BitOf(U128(dh, dl), k) == 0
  {
    if dh != 0 {
      var c := ClzNonzero(dh);
      idx := 127 - c;
      MsbPosSet(dh);
      forall k | idx < k < 128
        ensures BitOf(U128(dh, dl), k) == 0
      {
        MsbPosAbove(dh, k - 64);
      }
    } else {
      var c := ClzNonzero(dl);
      idx := 63 - c;
      MsbPosSet(dl);
      forall k | idx < k < 128
        ensures BitOf(U128(dh, dl), k) == 0
      {
        if k >= 64 {
          ShrZero(0, k - 64);
        } else {
          MsbPosAbove(dl, k);
        }
      }
    }
  }

  // ---------------------------------------------------------------------
  // Insertion sort
  // ---------------------------------------------------------------------

  /**
   * One step of `insertion_sort_u128`: key `i` is lifted out, the keys
   * before it move right while they compare greater, and it drops into the
   * hole.  Ties stay in front of it.  The hole is the source's `j + 1`.
   */
  method InsertU128(r: seq<U128>, i: nat) returns (t: seq<U128>)
    requires i < |r|
    ensures |t| == |r|
    ensures t[..i + 1] == Insert(r[..i], r[i], Val, true)
    ensures t[i + 1..] == r[i + 1..]
  {
    var x := r[i];
    ghost var s := r[..i];
    t := r;
    HoleStart(t, r, i);
    var hole := i;
    while hole > 0
      invariant Hole(t, s, r, i, hole)
      invariant Insert(s, x, Val, true) == Insert(s[..hole], x, Val, true) + s[hole..]
    {
      HoleShift(t, s, r, i, hole);
      if Cmp(t[hole - 1], x) <= 0 {
        break;
      }
      InsertStep(s, x, Val, true, hole);
      t := t[hole := t[hole - 1]];
      hole := hole - 1;
    }
    InsertStop(s, x, Val, true, hole);
    HoleFill(t, s, r, i, hole, x);
    t := t[hole := x];
  }

  /**
   * `insertion_sort_u128`: the stable insertion sort.  Its result is sorted,
   * a permutation of its input, and keeps every group of equal keys in
   * input order.
   */
  method InsertionSortU128(a: seq<U128>) returns (r: seq<U128>)
    ensures r == InsertionSort(a, Val, true)
    ensures multiset(r) == multiset(a) && SortedBy(r, Val)
    ensures forall v: nat :: Tied(r, Val, v) == Tied(a, Val, v)
  {
    r := a;
    if |a| > 0 {
      SortedPrefixStart(a, Val, true);
      var i := 1;
      while i < |a|
        invariant SortedPrefix(r, a, Val, true, i)
      {
        var t := InsertU128(r, i);
        SortedPrefixAdvance(a, r, t, Val, true, i);
        r, i := t, i + 1;
      }
      SortedPrefixDone(r, a, Val, true);
    }
    InsertionSortPerm(a, Val, true);
    InsertionSortSorted(a, Val, true);
    forall v: nat
      ensures Tied(r, Val, v) == Tied(a, Val, v)
    {
      InsertionSortStable(a, Val, v);
    }
  }

  // ---------------------------------------------------------------------
  // Partition
  // ---------------------------------------------------------------------

  /** Two keys swap places; the range keeps its keys. */
  lemma SwapPerm(p: seq<U128>, i: nat, j: nat)
    requires i < |p| && j < |p|
    ensures multiset(p[i := p[j]][j := p[i]]) == multiset(p)
  {
  }

  /**
   * `partition_by_bit_hi` (`useHi`) and `partition_by_bit_lo`: two cursors
   * close in from both ends, skipping keys already on their side and
   * swapping a misplaced pair.  The result has the masked bit clear before
   * `split` and set from `split` on.
   */
  method PartitionLimb(a: seq<U128>, useHi: bool, shift: nat) returns (r: seq<U128>, split: nat)
    requires shift < 64
    ensures |r| == |a| && multiset(r) == multiset(a)
    ensures split <= |r|
    ensures forall k :: 0 <= k < split ==> LimbBit(r[k], useHi, shift) == 0
    ensures forall k :: split <= k < |r| ==> LimbBit(r[k], useHi, shift) == 1
  {
    r := a;
    var i: int, j: int := 0, |a| - 1;
    while i <= j
      invariant 0 <= i <= j + 1 <= |r| == |a|
      invariant multiset(r) == multiset(a)
      invariant forall k :: 0 <= k < i ==> LimbBit(r[k], useHi, shift) == 0
      invariant forall k :: j < k < |r| ==> LimbBit(r[k], useHi, shift) == 1
      decreases j - i + 1
    {
      ghost var width := j - i + 1;
      while i <= j && LimbBit(r[i], useHi, shift) == 0
        invariant 0 <= i <= j + 1 && j - i + 1 <= width
        invariant forall k :: 0 <= k < i ==> LimbBit(r[k], useHi, shift) == 0
      {
        i := i + 1;
      }
      while i <= j && LimbBit(r[j], useHi, shift) == 1
        invariant 0 <= i <= j + 1 <= |r| && j - i + 1 <= width
        invariant forall k :: j < k < |r| ==> LimbBit(r[k], useHi, shift) == 1
      {
        j := j - 1;
      }
      if i < j {
        SwapPerm(r, i, j);
        r := r[i := r[j]][j := r[i]];
        i, j := i + 1, j - 1;
      }
    }
    split := i;
  }

  /** If every key of a permutation of `a` has the bit `v`, every key of `a` has it. */
  lemma BitsOfPerm(a: seq<U128>, r: seq<U128>, useHi: bool, shift: nat, v: nat)
    requires multiset(r) == multiset(a)
    requires forall k :: 0 <= k < |r| ==> LimbBit(r[k], useHi, shift) == v
    ensures forall k :: 0 <= k < |a| ==> LimbBit(a[k], useHi, shift) == v
  {
    forall k | 0 <= k < |a|
      ensures LimbBit(a[k], useHi, shift) == v
    {
      assert a[k] in multiset(a);
      assert a[k] in r;
    }
  }

  // ---------------------------------------------------------------------
  // Diff scan
  // ---------------------------------------------------------------------

  /** One step of the diff scan: `d | (x ^ b)`, word by word. */
  function Accumulate(d: U128, x: U128, b: U128): U128 {
    U128(WordOr(d.hi, WordXor(x.hi, b.hi)), WordOr(d.lo, WordXor(x.lo, b.lo)))
  }

  /** The diff of the first `n` keys: the OR over `1 <= i < n` of `a[i] ^ a[0]`. */
  function Diff(a: seq<U128>, n: nat): U128
    requires 0 < n <= |a|
  {
    if n == 1 then U128(0, 0) else Accumulate(Diff(a, n - 1), a[n - 1], a[0])
  }

  /** A bit of the accumulated diff is set when it was, or when the new key differs there. */
  lemma AccumulateBit(d: U128, x: U128, b: U128, k: nat)
    ensures BitOf(Accumulate(d, x, b), k) == (if BitOf(d, k) == 1 || BitOf(x, k) != BitOf(b, k) then 1 else 0)
  {
    var e := Accumulate(d, x, b);
    if k >= 64 {
      OrBit(d.hi, Xor(x.hi, b.hi), k - 64);
      XorBit(x.hi, b.hi, k - 64);
    } else {
      OrBit(d.lo, Xor(x.lo, b.lo), k);
      XorBit(x.lo, b.lo, k);
    }
  }

  /** The accumulated diff stays zero exactly while the new key equals the first. */
  lemma AccumulateZero(d: U128, x: U128, b: U128)
    ensures Accumulate(d, x, b) == U128(0, 0) <==> d == U128(0, 0) && x == b
  {
    OrZero(d.hi, Xor(x.hi, b.hi));
    OrZero(d.lo, Xor(x.lo, b.lo));
    XorZero(x.hi, b.hi);
    XorZero(x.lo, b.lo);
  }

  /** The diff is zero exactly when the first `n` keys are all the first key. */
  lemma {:induction false} DiffZero(a: seq<U128>, n: nat)
    requires 0 < n <= |a|
    ensures Diff(a, n) == U128(0, 0) <==> forall i :: 0 <= i < n ==> a[i] == a[0]
  {
    if n > 1 {
      DiffZero(a, n - 1);
      AccumulateZero(Diff(a, n - 1), a[n - 1], a[0]);
    }
  }

  /** A clear bit of the diff is a bit every one of the first `n` keys shares with the first. */
  lemma {:induction false} DiffClear(a: seq<U128>, n: nat, k: nat)
    requires 0 < n <= |a| && BitOf(Diff(a, n), k) == 0
    ensures forall i :: 0 <= i < n ==> BitOf(a[i], k) == BitOf(a[0], k)
  {
    if n > 1 {
      AccumulateBit(Diff(a, n - 1), a[n - 1], a[0], k);
      DiffClear(a, n - 1, k);
    }
  }

  /** The zero key has no bit set. */
  lemma ZeroBits(k: nat)
    ensures BitOf(U128(0, 0), k) == 0
  {
    ShrZero(0, if k >= 64 then k - 64 else k);
  }

  /** A set bit of the diff has a witness: a key that differs from the first there. */
  lemma {:induction false} DiffWitness(a: seq<U128>, n: nat, k: nat) returns (i: nat)
    requires 0 < n <= |a| && BitOf(Diff(a, n), k) == 1
    ensures 0 < i < n && BitOf(a[i], k) != BitOf(a[0], k)
  {
    if n == 1 {
      ZeroBits(k);
      assert false;
    } else {
      AccumulateBit(Diff(a, n - 1), a[n - 1], a[0], k);
      if BitOf(Diff(a, n - 1), k) == 1 {
        i := DiffWitness(a, n - 1, k);
      } else {
        i := n - 1;
      }
    }
  }

  /**
   * The diff scan (the 4-way unrolled loop and its tail are one OR loop
   * here): the result is zero exactly when every key equals the first.
   */
  method DiffScan(a: seq<U128>) returns (d: U128)
    requires |a| > 0
    ensures d == Diff(a, |a|)
    ensures d == U128(0, 0) <==> forall i :: 0 <= i < |a| ==> a[i] == a[0]
  {
    var bh, bl := a[0].hi, a[0].lo;
    var dh: Word, dl: Word := 0, 0;
    var i := 1;
    while i < |a|
      invariant 1 <= i <= |a|
      invariant U128(dh, dl) == Diff(a, i)
    {
      dh := WordOr(dh, WordXor(a[i].hi, bh));
      dl := WordOr(dl, WordXor(a[i].lo, bl));
      i := i + 1;
    }
    d := U128(dh, dl);
    DiffZero(a, |a|);
  }

  // ---------------------------------------------------------------------
  // One round
  // ---------------------------------------------------------------------

  /** Every key of `a` agrees with the first on every bit above `m`. */
  predicate AgreeAbove(a: seq<U128>, m: nat) {
    forall i, k :: 0 <= i < |a| && m < k < 128 ==> BitOf(a[i], k) == BitOf(a[0], k)
  }

  /** The bits above the diff's top bit are ones all keys share. */
  lemma DiffAgree(a: seq<U128>, m: nat)
    requires |a| > 0 && forall k :: m < k < 128 ==> BitOf(Diff(a, |a|), k) == 0
    ensures AgreeAbove(a, m)
  {
    forall i, k | 0 <= i < |a| && m < k < 128
      ensures BitOf(a[i], k) == BitOf(a[0], k)
    {
      DiffClear(a, |a|, k);
    }
  }

  /**
   * After partitioning keys that agree above `m` on bit `m`, every key of
   * the left part is strictly below every key of the right part.
   */
  lemma SplitLess(a: seq<U128>, p: seq<U128>, split: nat, m: nat)
    requires |a| > 0 && m < 128 && AgreeAbove(a, m)
    requires multiset(p) == multiset(a) && split <= |p|
    requires forall k :: 0 <= k < split ==> BitOf(p[k], m) == 0
    requires forall k :: split <= k < |p| ==> BitOf(p[k], m) == 1
    ensures forall i, j :: 0 <= i < split <= j < |p| ==> Val(p[i]) < Val(p[j])
  {
    forall i, j | 0 <= i < split <= j < |p|
      ensures Val(p[i]) < Val(p[j])
    {
      assert p[i] in multiset(p) && p[j] in multiset(p);
      assert p[i] in a && p[j] in a;
      var x :| 0 <= x < |a| && a[x] == p[i];
      var y :| 0 <= y < |a| && a[y] == p[j];
      forall k | m < k < 128
        ensures BitOf(p[i], k) == BitOf(p[j], k)
      {
        assert BitOf(a[x], k) == BitOf(a[0], k) == BitOf(a[y], k);
      }
      BitSplitLess(p[i], p[j], m);
    }
  }

  /**
   * One round of the loop on a range of more than one key: the diff scan,
   * the early return on a zero diff, and the partition on the diff's top
   * bit.  The split is strictly inside the range, and the left part is
   * strictly below the right part.
   */
  method SplitRound(w: seq<U128>) returns (equal: bool, p: seq<U128>, split: nat)
    requires |w| > 0
    ensures equal <==> forall i :: 0 <= i < |w| ==> w[i] == w[0]
    ensures !equal ==> |p| == |w| && multiset(p) == multiset(w) && 0 < split < |p|
    ensures !equal ==> forall i, j :: 0 <= i < split <= j < |p| ==> Val(p[i]) < Val(p[j])
  {
    var d := DiffScan(w);
    OrZero(d.hi, d.lo);
    if WordOr(d.hi, d.lo) == 0 {
      return true, w, 0;
    }
    equal := false;
    var m := HighestSetBit(d.hi, d.lo);
    ghost var differing := DiffWitness(w, |w|, m);
    DiffAgree(w, m);
    if m >= 64 {
      p, split := PartitionLimb(w, true, m - 64);
      if split == 0 {
        BitsOfPerm(w, p, true, m - 64, 1);
      } else if split == |p| {
        BitsOfPerm(w, p, true, m - 64, 0);
      }
    } else {
      p, split := PartitionLimb(w, false, m);
      if split == 0 {
        BitsOfPerm(w, p, false, m, 1);
      } else if split == |p| {
        BitsOfPerm(w, p, false, m, 0);
      }
    }
    SplitLess(w, p, split, m);
  }

  // ---------------------------------------------------------------------
  // The loop and the recursion
  // ---------------------------------------------------------------------

  /**
   * The array during the loop: sorted keys `pre`, the range `w` still being
   * sorted, sorted keys `suf`; together a permutation of `a`, each piece
   * at most the next.
   */
  predicate Window(pre: seq<U128>, w: seq<U128>, suf: seq<U128>, a: seq<U128>) {
    && multiset(pre + w + suf) == multiset(a)
    && SortedBy(pre, Val) && SortedBy(suf, Val)
    && AllLe(pre, w, Val) && AllLe(pre, suf, Val) && AllLe(w, suf, Val)
  }

  /** The parts of a split round: they make up the range, and the left part is at most the right part. */
  lemma SplitParts(w: seq<U128>, p: seq<U128>, split: nat)
    requires multiset(p) == multiset(w) && split <= |p|
    requires forall i, j :: 0 <= i < split <= j < |p| ==> Val(p[i]) < Val(p[j])
    ensures multiset(p[..split]) + multiset(p[split..]) == multiset(w)
    ensures multiset(p[..split]) <= multiset(w) && multiset(p[split..]) <= multiset(w)
    ensures AllLe(p[..split], p[split..], Val)
  {
    assert p == p[..split] + p[split..];
    forall x, y | x in p[..split] && y in p[split..]
      ensures Val(x) <= Val(y)
    {
      var i :| 0 <= i < split && p[..split][i] == x;
      var j :| 0 <= j < |p| - split && p[split..][j] == y;
      assert p[i] == x && p[split + j] == y;
    }
  }

  /** Sorting the left part of a split round and moving on to the right part keeps the picture. */
  lemma WindowLeft(pre: seq<U128>, w: seq<U128>, suf: seq<U128>, a: seq<U128>, p: seq<U128>, split: nat, left: seq<U128>)
    requires Window(pre, w, suf, a)
    requires multiset(p) == multiset(w) && split <= |p|
    requires forall i, j :: 0 <= i < split <= j < |p| ==> Val(p[i]) < Val(p[j])
    requires multiset(left) == multiset(p[..split]) && SortedBy(left, Val)
    ensures Window(pre + left, p[split..], suf, a)
  {
    var pl, pr := p[..split], p[split..];
    SplitParts(w, p, split);
    AllLeSub(pre, w, pre, left, Val);
    SortedConcat(pre, left, Val);
    AllLeSub(pre, w, pre, pr, Val);
    AllLeSub(pl, pr, left, pr, Val);
    AllLeConcat(pre, left, pr, Val);
    AllLeSub(w, suf, left, suf, Val);
    AllLeConcat(pre, left, suf, Val);
    AllLeSub(w, suf, pr, suf, Val);
    calc {
      multiset(pre + left + pr + suf);
      multiset(pre) + multiset(left) + multiset(pr) + multiset(suf);
      multiset(pre) + multiset(w) + multiset(suf);
      multiset(pre + w + suf);
    }
  }

  /** Sorting the right part of a split round and moving on to the left part keeps the picture. */
  lemma WindowRight(pre: seq<U128>, w: seq<U128>, suf: seq<U128>, a: seq<U128>, p: seq<U128>, split: nat, right: seq<U128>)
    requires Window(pre, w, suf, a)
    requires multiset(p) == multiset(w) && split <= |p|
    requires forall i, j :: 0 <= i < split <= j < |p| ==> Val(p[i]) < Val(p[j])
    requires multiset(right) == multiset(p[split..]) && SortedBy(right, Val)
    ensures Window(pre, p[..split], right + suf, a)
  {
    var pl, pr := p[..split], p[split..];
    SplitParts(w, p, split);
    AllLeSub(w, suf, right, suf, Val);
    SortedConcat(right, suf, Val);
    AllLeSub(pre, w, pre, pl, Val);
    AllLeSub(pre, w, pre, right, Val);
    AllLeSub(pl, pr, pl, right, Val);
    AllLeSub(w, suf, pl, suf, Val);
    AllLeSwap(pre, right, suf);
    AllLeSwap(pl, right, suf);
    calc {
      multiset(pre + pl + (right + suf));
      multiset(pre) + multiset(pl) + multiset(right) + multiset(suf);
      multiset(pre) + multiset(w) + multiset(suf);
      multiset(pre + w + suf);
    }
  }

  /** `AllLe` of a concatenation on the right is `AllLe` of each part. */
  lemma AllLeSwap(a: seq<U128>, b: seq<U128>, c: seq<U128>)
    requires AllLe(a, b, Val) && AllLe(a, c, Val)
    ensures AllLe(a, b + c, Val)
  {
  }

  /** A sorted permutation of the range between the two sorted pieces completes the sort. */
  lemma WindowDone(pre: seq<U128>, w: seq<U128>, suf: seq<U128>, a: seq<U128>, s: seq<U128>)
    requires Window(pre, w, suf, a)
    requires multiset(s) == multiset(w) && SortedBy(s, Val)
    ensures multiset(pre + s + suf) == multiset(a) && SortedBy(pre + s + suf, Val)
  {
    AllLeSub(w, suf, s, suf, Val);
    SortedConcat(s, suf, Val);
    AllLeSub(pre, w, pre, s, Val);
    AllLeSwap(pre, s, suf);
    SortedConcat(pre, s + suf, Val);
    assert pre + s + suf == pre + (s + suf);
    calc {
      multiset(pre + s + suf);
      multiset(pre) + multiset(s) + multiset(suf);
      multiset(pre + w + suf);
    }
  }

  /** A range of one repeated key is sorted. */
  lemma RepeatedSorted(w: seq<U128>)
    requires forall i :: 0 <= i < |w| ==> w[i] == w[0]
    ensures SortedBy(w, Val)
  {
    forall i, j | 0 <= i < j < |w|
      ensures Val(w[i]) <= Val(w[j])
    {
      assert w[i] == w[0] == w[j];
    }
  }

  /** A call on at most half of a range of more than 48 keys stays within the log2 bound. */
  lemma DepthStep(d: nat, side: nat, n: nat, total: nat)
    requires d == 0 || Pow2(d) <= side
    requires 2 * side <= n <= total && n > CUTOFF
    ensures Pow2(d + 1) <= total
  {
  }

  /** The result is the sorted order, and a sorted input comes back unchanged. */
  lemma Finish(a: seq<U128>, r: seq<U128>)
    requires multiset(r) == multiset(a) && SortedBy(r, Val)
    ensures r == InsertionSort(a, Val, true)
    ensures SortedBy(a, Val) ==> r == a
  {
    SortedPermIsSort(a, r);
    if SortedBy(a, Val) {
      InsertionSortSortedInput(a, Val);
    }
  }

  /**
   * `pipe_sort_u128`: the result is a sorted permutation of `a` (the one
   * the reference sort gives), a sorted input comes back unchanged, and
   * `depth`, the deepest chain of nested recursive calls, is at most
   * log2 of the number of keys.
   */
  method PipeSortU128(a: seq<U128>) returns (r: seq<U128>, depth: nat)
    ensures multiset(r) == multiset(a) && SortedBy(r, Val)
    ensures r == InsertionSort(a, Val, true)
    ensures SortedBy(a, Val) ==> r == a
    ensures depth == 0 || Pow2(depth) <= |a|
    decreases |a|
  {
    var pre: seq<U128>, w, suf: seq<U128> := [], a, [];
    assert pre + w + suf == a;
    depth := 0;
    while |w| > CUTOFF
      invariant Window(pre, w, suf, a)
      invariant |w| <= |a|
      invariant depth == 0 || Pow2(depth) <= |a|
      decreases |w|
    {
      var equal, p, split := SplitRound(w);
      if equal {
        RepeatedSorted(w);
        WindowDone(pre, w, suf, a, w);
        r := pre + w + suf;
        Finish(a, r);
        return;
      }
      if split < |w| - split {
        var left, d := PipeSortU128(p[..split]);
        DepthStep(d, split, |w|, |a|);
        depth := if d + 1 > depth then d + 1 else depth;
        WindowLeft(pre, w, suf, a, p, split, left);
        pre, w := pre + left, p[split..];
      } else {
        var right, d := PipeSortU128(p[split..]);
        DepthStep(d, |w| - split, |w|, |a|);
        depth := if d + 1 > depth then d + 1 else depth;
        WindowRight(pre, w, suf, a, p, split, right);
        w, suf := p[..split], right + suf;
      }
    }
    var s := InsertionSortU128(w);
    WindowDone(pre, w, suf, a, s);
    r := pre + s + suf;
    Finish(a, r);
  }

  /** Comparing neighbours with `u128_cmp` decides sortedness. */
  lemma AdjacentCmp(a: seq<U128>)
    ensures (forall i :: 1 <= i < |a| ==> Cmp(a[i - 1], a[i]) <= 0) <==> SortedBy(a, Val)
  {
    AdjacentIsSorted(a, Val);
  }

  /** `u128_is_sorted`: no neighbour compares greater than its successor. */
  method IsSortedU128(a: seq<U128>) returns (ok: bool)
    ensures ok <==> forall i :: 1 <= i < |a| ==> Cmp(a[i - 1], a[i]) <= 0
    ensures ok <==> SortedBy(a, Val)
  {
    AdjacentCmp(a);
    var i := 1;
    while i < |a|
      invariant 1 <= i
      invariant forall i' :: 1 <= i' < i && i' < |a| ==> Cmp(a[i' - 1], a[i']) <= 0
    {
      if Cmp(a[i - 1], a[i]) > 0 {
        return false;
      }
      i := i + 1;
    }
    ok := true;
  }
}
