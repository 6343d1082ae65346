/**
 * The C++ port of the generic N-word pipe sort (`pipe_sort`).  It differs
 * from the C version in one place: the partition loop steps its unsigned
 * `right` cursor down with no check for zero, which is safe only because it
 * is reached with a bit that is not uniform over the range.  The caller
 * computes the top bit with `get_max_bit` and passes it in.
 */
module UniversalCpp {
  import opened Bits
  import opened Keys
  import opened Ordering
  import opened WideSort

  /**
   * The partition loop without guards on `right`.  Given keys with the bit
   * clear and keys with the bit set, `right` never has to step below zero
   * and the split lands strictly inside the range.
   */
  method PartitionCpp(a: seq<Key>, limbs: nat, bit: nat) returns (p: seq<Key>, left: nat)
    requires Uniform(a, limbs) && bit < 64 * limbs
    requires HasBit(a, bit, 0) && HasBit(a, bit, 1)
    ensures multiset(p) == multiset(a) && Uniform(p, limbs)
    ensures SplitAt(p, bit, left)
    ensures 0 < left < |a|
  {
    p := a;
    left := 0;
    var right: nat := |a| - 1;
    while left <= right
      invariant multiset(p) == multiset(a) && Uniform(p, limbs)
      invariant left <= right + 1 && right < |p|
      invariant Parted(p, bit, left, right)
      decreases right + 1 - left
    {
      var leftBit := KeyBit(p[left], bit);
      if leftBit == 0 {
        PartedLeft(p, bit, left, right);
        left := left + 1;
        continue;
      }
      var rightBit := KeyBit(p[right], bit);
      if rightBit == 1 {
        RightPositive(a, p, bit, left, right);
        PartedRight(p, bit, left, right);
        right := right - 1;
        continue;
      }
      p := SwapMisplaced(p, limbs, bit, left, right);
      left, right := left + 1, right - 1;
    }
    PartedDone(p, bit, left, right);
    SplitBounds(a, p, bit, left);
  }

  /**
   * The recursive sort of one range at bit `bit`: a permutation, sorted when
   * the keys agree on every bit above `bit`, and the identity for at most
   * one key or a bit below 0.
   */
  method PipeSortCpp(a: seq<Key>, limbs: nat, bit: int) returns (r: seq<Key>)
    requires Uniform(a, limbs) && bit < 64 * limbs
    ensures multiset(r) == multiset(a)
    ensures |a| <= 1 || bit < 0 ==> r == a
    ensures AgreeAbove(a, Top(bit)) ==> SortedBy(r, Value)
    decreases Top(bit), 1
  {
    if |a| <= 1 || bit < 0 {
      if AgreeAbove(a, 0) {
        AgreeAllSorted(a);
      }
      return a;
    }
    if |a| <= SMALL {
      r := InsertionSortWide(a, limbs);
      return;
    }
    var same := AllSameBit(a, limbs, bit);
    if same {
      r := PipeSortCpp(a, limbs, bit - 1);
      if AgreeAbove(a, bit + 1) {
        AgreeStep(a, bit);
      }
    } else {
      r := PartitionAndSortCpp(a, limbs, bit);
    }
  }

  /** Partition a non-uniform range on bit `bit` and sort both parts from bit `bit - 1`. */
  method PartitionAndSortCpp(a: seq<Key>, limbs: nat, bit: nat) returns (r: seq<Key>)
    requires Uniform(a, limbs) && bit < 64 * limbs
    requires HasBit(a, bit, 0) && HasBit(a, bit, 1)
    ensures multiset(r) == multiset(a)
    ensures AgreeAbove(a, bit + 1) ==> SortedBy(r, Value)
    decreases bit + 1, 0
  {
    var p, left := PartitionCpp(a, limbs, bit);
    UniformSplit(p, limbs, left);
    SplitAgree(a, p, left, bit);
    var lo := PipeSortCpp(p[..left], limbs, bit - 1);
    var hi := PipeSortCpp(p[left..], limbs, bit - 1);
    Assemble(a, p, left, bit, lo, hi);
    r := lo + hi;
  }

  /**
   * The driver's use of the sort: `get_max_bit` over the keys, then
   * `pipe_sort` from that bit.  The result is the sorted permutation of the
   * input, which is what `std::sort` produces on the same keys.
   */
  method SortCpp(a: seq<Key>, limbs: nat) returns (r: seq<Key>)
    requires Uniform(a, limbs)
    ensures multiset(r) == multiset(a) && SortedBy(r, Value)
    ensures r == InsertionSort(a, Value, true)
  {
    var mb := GetMaxBit(a, limbs);
    MaxBitFacts(a, mb);
    MaxBitAgree(a, mb);
    r := PipeSortCpp(a, limbs, mb);
    MatchesReference(a, r, limbs);
  }
}
