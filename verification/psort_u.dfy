/**
 * The C generic N-word pipe sort (`psort_u`): find the highest set bit over
 * all keys, then partition on one bit at a time from there downwards,
 * skipping bits every key shares and handing ranges of at most 16 keys to
 * the insertion sort.
 *
 * The range `keys[0 .. n * limbs)` is a sequence of `n` keys of `limbs`
 * words each; each method returns the rearranged range instead of writing
 * it in place.
 */
module PsortU {
  import opened Bits
  import opened Keys
  import opened Ordering
  import opened WideSort

  /**
   * The partition loop with its two cursors: `left` walks over keys with
   * the bit clear, `right` walks back over keys with the bit set, and a
   * misplaced pair is exchanged.  `right` is unsigned, so the loop stops
   * instead of stepping below zero.
   */
  method PartitionC(a: seq<Key>, limbs: nat, bit: nat) returns (p: seq<Key>, left: nat)
    requires |a| > 0 && Uniform(a, limbs) && bit < 64 * limbs
    ensures multiset(p) == multiset(a) && Uniform(p, limbs)
    ensures SplitAt(p, bit, left)
    ensures HasBit(a, bit, 0) ==> 0 < left
    ensures HasBit(a, bit, 1) ==> left < |a|
  {
    p := a;
    left := 0;
    var right: nat := |a| - 1;
    while left <= right
      invariant multiset(p) == multiset(a) && Uniform(p, limbs)
      invariant left <= right + 1 && right < |p|
      invariant Parted(p, bit, left, right)
      decreases right + 1 - left
    {
      var lb := KeyBit(p[left], bit);
      if lb == 0 {
        PartedLeft(p, bit, left, right);
        left := left + 1;
        continue;
      }
      var rb := KeyBit(p[right], bit);
      if rb == 1 {
        if right == 0 {
          break;
        }
        PartedRight(p, bit, left, right);
        right := right - 1;
        continue;
      }
      p := SwapMisplaced(p, limbs, bit, left, right);
      left := left + 1;
      if right == 0 {
        break;
      }
      right := right - 1;
    }
    SplitBounds(a, p, bit, left);
  }

  /**
   * The recursive sort of one range at bit `bit`.  When the keys agree on
   * every bit above `bit` the result is sorted; it is always a permutation,
   * and a range of at most one key or a call below bit 0 is left alone.
   */
  method PipeSortU(a: seq<Key>, limbs: nat, bit: int) returns (r: seq<Key>)
    requires Uniform(a, limbs) && bit < 64 * limbs
    ensures multiset(r) == multiset(a)
    ensures |a| <= 1 || bit < 0 ==> r == a
    ensures AgreeAbove(a, Top(bit)) ==> SortedBy(r, Value)
    decreases Top(bit), 1
  {
    if |a| <= 1 || bit < 0 {
      if AgreeAbove(a, 0) {
        AgreeAllSorted(a);
      }
      return a;
    }
    if |a| <= SMALL {
      r := InsertionSortWide(a, limbs);
      return;
    }
    var same := AllSameBit(a, limbs, bit);
    if same {
      r := PipeSortU(a, limbs, bit - 1);
      if AgreeAbove(a, bit + 1) {
        AgreeStep(a, bit);
      }
    } else {
      r := PartitionAndSort(a, limbs, bit);
    }
  }

  /** Partition a range on bit `bit` and sort both parts from bit `bit - 1`. */
  method PartitionAndSort(a: seq<Key>, limbs: nat, bit: nat) returns (r: seq<Key>)
    requires |a| > 0 && Uniform(a, limbs) && bit < 64 * limbs
    ensures multiset(r) == multiset(a)
    ensures AgreeAbove(a, bit + 1) ==> SortedBy(r, Value)
    decreases bit + 1, 0
  {
    var p, left := PartitionC(a, limbs, bit);
    UniformSplit(p, limbs, left);
    SplitAgree(a, p, left, bit);
    var lo := PipeSortU(p[..left], limbs, bit - 1);
    var hi := PipeSortU(p[left..], limbs, bit - 1);
    Assemble(a, p, left, bit, lo, hi);
    r := lo + hi;
  }

  /**
   * The public entry: nothing happens for at most one key, zero-word keys or
   * all-zero keys; otherwise the sort starts at the highest set bit.  The
   * result is the sorted permutation of the input.
   */
  method PsortU(a: seq<Key>, limbs: nat) returns (r: seq<Key>)
    requires Uniform(a, limbs)
    ensures multiset(r) == multiset(a) && SortedBy(r, Value)
    ensures r == InsertionSort(a, Value, true)
    ensures |a| <= 1 || limbs == 0 || (forall i :: 0 <= i < |a| ==> Value(a[i]) == 0) ==> r == a
  {
    if |a| <= 1 || limbs == 0 {
      TrivialSorted(a, limbs);
      r := a;
    } else {
      var mb := GetMaxBit(a, limbs);
      MaxBitFacts(a, mb);
      if mb < 0 {
        TrivialSorted(a, limbs);
        r := a;
      } else {
        MaxBitAgree(a, mb);
        r := PipeSortU(a, limbs, mb);
      }
    }
    MatchesReference(a, r, limbs);
  }
}
