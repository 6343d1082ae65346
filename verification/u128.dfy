/**
 * The 128-bit key of the fixed-width sort: a pair of 64-bit words, `hi`
 * first, its three-way comparison, and the bit reading the partition uses.
 * The C comparator takes pointers and the C++ one references; both read
 * the same two fields, so one definition models both.
 */
module U128Key {
  import opened Bits
  import opened Keys
  import opened Ordering

  datatype U128 = U128(hi: Word, lo: Word)

  /** The number the key denotes, `hi * 2^64 + lo`. */
  function Val(x: U128): nat {
    x.hi * WORD + x.lo
  }

  /** The word a partition masks: `hi` or `lo`. */
  function Limb(x: U128, useHi: bool): Word {
    if useHi then x.hi else x.lo
  }

  /** `(limb & (1 << shift)) != 0`, as 0 or 1. */
  function LimbBit(x: U128, useHi: bool, shift: nat): nat {
    Bit(Limb(x, useHi), shift)
  }

  /** Bit `bit` of the key: bits 64..127 live in `hi`, bits 0..63 in `lo`. */
  function BitOf(x: U128, bit: nat): nat {
    if bit >= 64 then LimbBit(x, true, bit - 64) else LimbBit(x, false, bit)
  }

  /**
   * `u128_cmp`: -1, 0 or 1, deciding on `hi` first and on `lo` only on a
   * tie; it is the numeric order of `hi * 2^64 + lo`, so it is antisymmetric.
   */
  function Cmp(a: U128, b: U128): (c: int)
    ensures c == -1 || c == 0 || c == 1
    ensures c == 0 <==> a == b
    ensures c == -1 <==> Val(a) < Val(b)
    ensures c == 1 <==> Val(a) > Val(b)
    ensures a.hi != b.hi ==> (c == -1 <==> a.hi < b.hi)
  {
    if a.hi < b.hi then -1
    else if a.hi > b.hi then 1
    else if a.lo < b.lo then -1
    else if a.lo > b.lo then 1
    else 0
  }

  /** The two words are the key's value in the multi-word sense: `hi` first. */
  lemma ValWords(x: U128)
    ensures Val(x) == Value([x.hi, x.lo])
  {
    var k := [x.hi, x.lo];
    ValueCons(k);
    ValueCons(k[1..]);
    assert k[1..][1..] == [];
    Pow2Word();
  }

  /** Different keys denote different numbers. */
  lemma ValInjective(x: U128, y: U128)
    requires Val(x) == Val(y)
    ensures x == y
  {
  }

  /** Every key is below 2^128. */
  lemma ValBound(x: U128)
    ensures Val(x) < Pow2(128)
  {
    Pow2Word();
    Pow2Add(64, 64);
    assert Val(x) < (x.hi + 1) * WORD <= WORD * WORD;
  }

  /** The field-and-shift reading of a bit is the bit of the key's number. */
  lemma BitOfVal(x: U128, bit: nat)
    ensures BitOf(x, bit) == Bit(Val(x), bit)
  {
    Pow2Word();
    if bit >= 64 {
      BitOfHigh(Val(x), x.hi, x.lo, 64, bit);
    } else {
      BitOfLow(Val(x), x.hi, x.lo, 64, bit);
    }
  }

  /** Keys that agree on every bit above `m` have the same number above `m`. */
  lemma AgreeShr(x: U128, y: U128, m: nat)
    requires m < 128
    requires forall k :: m < k < 128 ==> BitOf(x, k) == BitOf(y, k)
    ensures Shr(Val(x), m + 1) == Shr(Val(y), m + 1)
  {
    var vx, vy := Val(x), Val(y);
    forall k | m + 1 <= k < 128
      ensures Bit(vx, k) == Bit(vy, k)
    {
      BitOfVal(x, k);
      BitOfVal(y, k);
    }
    ValBound(x);
    ValBound(y);
    BitsAgree(vx, vy, m + 1, 128);
  }

  /**
   * Keys that agree on every bit above `m` and differ at `m` are ordered by
   * bit `m`: the one with the bit clear is the smaller.
   */
  lemma BitSplitLess(x: U128, y: U128, m: nat)
    requires m < 128 && BitOf(x, m) == 0 && BitOf(y, m) == 1
    requires forall k :: m < k < 128 ==> BitOf(x, k) == BitOf(y, k)
    ensures Val(x) < Val(y)
  {
    var vx, vy := Val(x), Val(y);
    AgreeShr(x, y, m);
    BitOfVal(x, m);
    BitOfVal(y, m);
    ShrStep(vx, m);
    ShrStep(vy, m);
    ShrLess(vx, vy, m);
  }

  /**
   * A sorted permutation of `a` is the stable insertion sort of `a`: keys
   * with equal numbers are equal, so there is only one sorted order.
   */
  lemma SortedPermIsSort(a: seq<U128>, r: seq<U128>)
    requires multiset(r) == multiset(a) && SortedBy(r, Val)
    ensures r == InsertionSort(a, Val, true)
  {
    var t := InsertionSort(a, Val, true);
    InsertionSortPerm(a, Val, true);
    InsertionSortSorted(a, Val, true);
    forall x, y | x in r && y in r && Val(x) == Val(y)
      ensures x == y
    {
      ValInjective(x, y);
    }
    SortedUnique(r, t, Val);
  }
}
