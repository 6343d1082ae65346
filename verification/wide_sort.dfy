/**
 * The pieces the generic N-word pipe sort shares between its C version
 * (`psort_u`) and its C++ port (`pipe_sort`): the big-endian comparison, the
 * key swap, the small-range insertion sort, the global top-bit scan, the
 * "does every key share this bit" scan, and the order facts that make a
 * one-bit partition followed by sorting both halves a sort.
 *
 * Keys are whole `Key` values in a sequence; the sources' flat word array
 * `keys[i * limbs + l]` is `a[i][l]`, and `memcpy`/`memmove` of one key is
 * assignment of one element.
 */
module WideSort {
  import opened Bits
  import opened Keys
  import opened Ordering

  /** The ranges at or below this size go to the insertion sort. */
  const SMALL: nat := 16

  /** Every key of `a` has the same value above bit `m - 1` as the first one. */
  predicate AgreeAbove(a: seq<Key>, m: nat) {
    forall i :: 0 <= i < |a| ==> Above(a[i], m) == Above(a[0], m)
  }

  /** The agreement a call at bit `bit` relies on: all bits above `bit`. */
  function Top(bit: int): nat {
    if bit < 0 then 0 else bit + 1
  }

  /** `r[..left]` has bit `bit` clear and `r[left..]` has it set. */
  predicate SplitAt(r: seq<Key>, bit: nat, left: nat) {
    && left <= |r|
    && (forall i :: 0 <= i < left ==> KeyBit(r[i], bit) == 0)
    && (forall i :: left <= i < |r| ==> KeyBit(r[i], bit) == 1)
  }

  /** Some key of `a` has bit `bit` equal to `v`. */
  predicate HasBit(a: seq<Key>, bit: nat, v: nat) {
    exists i :: 0 <= i < |a| && KeyBit(a[i], bit) == v
  }

  // ---------------------------------------------------------------------
  // Comparison and swap
  // ---------------------------------------------------------------------

  /**
   * `a >= b`, reading words from the most significant one and answering at
   * the first word that differs; equal keys answer true.
   */
  method GeKey(a: Key, b: Key) returns (ge: bool)
    requires |a| == |b|
    ensures ge <==> Value(a) >= Value(b)
  {
    var i := 0;
    while i < |a|
      invariant 0 <= i <= |a|
      invariant a[..i] == b[..i]
    {
      if a[i] > b[i] {
        LexFirstDiff(b, a, i);
        LexLessValue(b, a);
        return true;
      }
      if a[i] < b[i] {
        LexFirstDiff(a, b, i);
        LexLessValue(a, b);
        return false;
      }
      assert a[..i + 1] == a[..i] + [a[i]];
      assert b[..i + 1] == b[..i] + [b[i]];
      i := i + 1;
    }
    assert a == a[..i] && b == b[..i];
    ge := true;
  }

  /** Exchange keys `i` and `j` word by word; nothing else changes. */
  method SwapKeys(a: seq<Key>, i: nat, j: nat, limbs: nat) returns (r: seq<Key>)
    requires i < |a| && j < |a| && |a[i]| == limbs && |a[j]| == limbs
    ensures r == a[i := a[j]][j := a[i]]
  {
    r := a;
    var l := 0;
    while l < limbs
      invariant 0 <= l <= limbs
      invariant |r| == |a|
      invariant forall m :: 0 <= m < |a| && m != i && m != j ==> r[m] == a[m]
      invariant i == j ==> r[i] == a[i]
      invariant i != j ==> |r[i]| == limbs && |r[j]| == limbs
      invariant i != j ==> forall t :: 0 <= t < limbs ==> r[i][t] == (if t < l then a[j][t] else a[i][t])
      invariant i != j ==> forall t :: 0 <= t < limbs ==> r[j][t] == (if t < l then a[i][t] else a[j][t])
    {
      var t := r[i][l];
      r := r[i := r[i][l := r[j][l]]];
      r := r[j := r[j][l := t]];
      l := l + 1;
    }
    if i != j {
      assert r[i] == a[j] && r[j] == a[i];
    }
    assert forall m :: 0 <= m < |a| ==> r[m] == a[i := a[j]][j := a[i]][m];
  }

  // ---------------------------------------------------------------------
  // Insertion sort
  // ---------------------------------------------------------------------

  /**
   * One step of the small-range insertion sort: key `i` is lifted out, the
   * keys before it move right while they are `>=` it, and it drops into the
   * hole.  The prefix `r[..i + 1]` becomes `Insert(r[..i], r[i])`.
   */
  method InsertKey(r: seq<Key>, i: nat, limbs: nat) returns (t: seq<Key>)
    requires i < |r| && Uniform(r, limbs)
    ensures |t| == |r| && Uniform(t, limbs)
    ensures t[..i + 1] == Insert(r[..i], r[i], Value, false)
    ensures t[i + 1..] == r[i + 1..]
  {
    var x := r[i];
    assert x in r;
    ghost var s := r[..i];
    t := r;
    HoleStart(t, r, i);
    var j := i;
    while j > 0
      invariant Hole(t, s, r, i, j)
      invariant Uniform(t, limbs)
      invariant Insert(s, x, Value, false) == Insert(s[..j], x, Value, false) + s[j..]
    {
      HoleShift(t, s, r, i, j);
      assert t[j - 1] in t;
      var ge := GeKey(t[j - 1], x);
      if !ge {
        break;
      }
      InsertStep(s, x, Value, false, j);
      UniformUpdate(t, j, t[j - 1], limbs);
      t := t[j := t[j - 1]];
      j := j - 1;
    }
    InsertStop(s, x, Value, false, j);
    HoleFill(t, s, r, i, j, x);
    UniformUpdate(t, j, x, limbs);
    t := t[j := x];
  }

  /**
   * The small-range insertion sort: it performs the reference insertion
   * sort that passes over ties (`>=`), so its result is sorted and a
   * permutation of its input.
   */
  method InsertionSortWide(a: seq<Key>, limbs: nat) returns (r: seq<Key>)
    requires Uniform(a, limbs)
    ensures r == InsertionSort(a, Value, false)
    ensures multiset(r) == multiset(a) && SortedBy(r, Value)
  {
    r := a;
    if |a| == 0 {
      return;
    }
    SortedPrefixStart(a, Value, false);
    var i := 1;
    while i < |a|
      invariant SortedPrefix(r, a, Value, false, i)
      invariant Uniform(r, limbs)
    {
      var t := InsertKey(r, i, limbs);
      SortedPrefixAdvance(a, r, t, Value, false, i);
      r, i := t, i + 1;
    }
    SortedPrefixDone(r, a, Value, false);
    InsertionSortPerm(a, Value, false);
    InsertionSortSorted(a, Value, false);
  }

  /**
   * Equal-valued keys of one width are the same key, so the insertion sort's
   * habit of passing over ties cannot be observed: it agrees with the stable
   * insertion sort.
   */
  lemma NonStrictIsStrict(a: seq<Key>, limbs: nat)
    requires Uniform(a, limbs)
    ensures InsertionSort(a, Value, false) == InsertionSort(a, Value, true)
  {
    InsertionSortPerm(a, Value, false);
    InsertionSortPerm(a, Value, true);
    InsertionSortSorted(a, Value, false);
    InsertionSortSorted(a, Value, true);
    var s, t := InsertionSort(a, Value, false), InsertionSort(a, Value, true);
    UniformPerm(a, s, limbs);
    SortedPermUnique(s, t, limbs);
  }

  /** Two sorted permutations of one sequence of equal-width keys are equal. */
  lemma SortedPermUnique(a: seq<Key>, b: seq<Key>, limbs: nat)
    requires Uniform(a, limbs) && multiset(a) == multiset(b)
    requires SortedBy(a, Value) && SortedBy(b, Value)
    ensures a == b
  {
    forall x, y | x in a && y in a && Value(x) == Value(y)
      ensures x == y
    {
      ValueInjective(x, y);
    }
    SortedUnique(a, b, Value);
  }

  // ---------------------------------------------------------------------
  // Scans
  // ---------------------------------------------------------------------

  /**
   * The highest set bit of one word, or -1 for zero, computed the portable
   * way: count how many halvings it takes to reach zero.
   */
  method MsbPosU64(x: Word) returns (p: int)
    ensures p == MsbPos(x)
    ensures p == -1 <==> x == 0
    ensures x != 0 ==> 0 <= p < 64 && Bit(x, p) == 1 && x < Pow2(p + 1)
  {
    if x == 0 {
      return -1;
    }
    p := 0;
    var y: nat := x / 2;
    while y != 0
      invariant MsbPos(x) == p + 1 + MsbPos(y)
      decreases y
    {
      p := p + 1;
      y := y / 2;
    }
    MsbPosWord(x);
    MsbPosSet(x);
  }

  /**
   * The highest set bit of one key as a global position, or -1 when the
   * key is zero: the first non-zero word, scanned from the most significant
   * one, decides.
   */
  method KeyMsb(k: Key, limbs: nat) returns (abs: int)
    requires |k| == limbs
    ensures abs == MsbPos(Value(k))
    ensures -1 <= abs < 64 * limbs
  {
    var l := 0;
    while l < limbs
      invariant 0 <= l <= limbs
      invariant forall l' :: 0 <= l' < l ==> k[l'] == 0
    {
      var bit := MsbPosU64(k[l]);
      if bit >= 0 {
        abs := bit + (limbs - 1 - l) * 64;
        MsbPosWord(k[l]);
        ValueDropZeros(k, l);
        var rest := k[l..];
        assert rest[0] == k[l] && |rest| - 1 == limbs - 1 - l;
        ValueMsb(rest, abs);
        MsbPosUnique(Value(rest), abs);
        return;
      }
      l := l + 1;
    }
    ValueZero(k);
    abs := -1;
  }

  /**
   * The highest set bit over all keys, as a global position, or -1 when
   * every key is zero.
   */
  method GetMaxBit(a: seq<Key>, limbs: nat) returns (mb: int)
    requires Uniform(a, limbs)
    ensures -1 <= mb < 64 * limbs
    ensures forall i :: 0 <= i < |a| ==> MsbPos(Value(a[i])) <= mb
    ensures mb == -1 || exists i :: 0 <= i < |a| && MsbPos(Value(a[i])) == mb
  {
    mb := -1;
    var i := 0;
    while i < |a|
      invariant 0 <= i <= |a|
      invariant -1 <= mb < 64 * limbs
      invariant forall i' :: 0 <= i' < i ==> MsbPos(Value(a[i'])) <= mb
      invariant mb == -1 || exists i' :: 0 <= i' < i && MsbPos(Value(a[i'])) == mb
    {
      var abs := KeyMsb(a[i], limbs);
      if abs > mb {
        mb := abs;
      }
      i := i + 1;
    }
  }

  /** The scan's answer bounds every key, and is -1 exactly when all keys are zero. */
  lemma MaxBitFacts(a: seq<Key>, mb: int)
    requires forall i :: 0 <= i < |a| ==> MsbPos(Value(a[i])) <= mb
    requires mb == -1 || exists i :: 0 <= i < |a| && MsbPos(Value(a[i])) == mb
    ensures forall i :: 0 <= i < |a| ==> Value(a[i]) < Pow2(mb + 1)
    ensures mb == -1 <==> forall i :: 0 <= i < |a| ==> Value(a[i]) == 0
  {
    forall i | 0 <= i < |a|
      ensures Value(a[i]) < Pow2(mb + 1)
    {
      if Value(a[i]) > 0 {
        Pow2Mono(MsbPos(Value(a[i])) + 1, mb + 1);
      }
    }
  }

  /**
   * Whether every key of a non-empty range has the same bit `bit` as the
   * first key; the scan stops at the first key that differs.
   */
  method AllSameBit(a: seq<Key>, limbs: nat, bit: nat) returns (same: bool)
    requires |a| > 0 && Uniform(a, limbs) && bit < 64 * limbs
    ensures same <==> forall i :: 0 <= i < |a| ==> KeyBit(a[i], bit) == KeyBit(a[0], bit)
    ensures !same ==> HasBit(a, bit, 0) && HasBit(a, bit, 1)
  {
    var first := KeyBit(a[0], bit);
    var i := 1;
    while i < |a|
      invariant 1 <= i <= |a|
      invariant forall i' :: 0 <= i' < i ==> KeyBit(a[i'], bit) == first
    {
      var b := KeyBit(a[i], bit);
      if b != first {
        HasBothBits(a, bit, i);
        return false;
      }
      i := i + 1;
    }
    same := true;
  }

  /** Two keys that differ at `bit` show both values of the bit. */
  lemma HasBothBits(a: seq<Key>, bit: nat, i: nat)
    requires 0 < i < |a| && KeyBit(a[i], bit) != KeyBit(a[0], bit)
    ensures HasBit(a, bit, 0) && HasBit(a, bit, 1)
  {
    if KeyBit(a[i], bit) == 0 {
      assert KeyBit(a[0], bit) == 1;
    } else {
      assert KeyBit(a[0], bit) == 0;
    }
  }

  // ---------------------------------------------------------------------
  // The two-cursor partition's picture
  // ---------------------------------------------------------------------

  /**
   * Mid-partition: keys before `left` have bit `bit` clear, keys after
   * `right` have it set.
   */
  predicate Parted(p: seq<Key>, bit: nat, left: nat, right: int) {
    && left <= |p| && -1 <= right < |p|
    && (forall i :: 0 <= i < left ==> KeyBit(p[i], bit) == 0)
    && (forall i :: right < i < |p| ==> KeyBit(p[i], bit) == 1)
  }

  /** A clear key at `left` joins the clear prefix. */
  lemma PartedLeft(p: seq<Key>, bit: nat, left: nat, right: int)
    requires Parted(p, bit, left, right) && left < |p| && KeyBit(p[left], bit) == 0
    ensures Parted(p, bit, left + 1, right)
  {
  }

  /** A set key at `right` joins the set suffix. */
  lemma PartedRight(p: seq<Key>, bit: nat, left: nat, right: nat)
    requires Parted(p, bit, left, right) && KeyBit(p[right], bit) == 1
    ensures Parted(p, bit, left, right - 1)
  {
  }

  /** Exchanging a misplaced set key at `left` with a misplaced clear key at `right` moves both cursors. */
  lemma PartedSwap(p: seq<Key>, bit: nat, left: nat, right: nat)
    requires Parted(p, bit, left, right) && left < right
    requires KeyBit(p[left], bit) == 1 && KeyBit(p[right], bit) == 0
    ensures Parted(p[left := p[right]][right := p[left]], bit, left + 1, right - 1)
    ensures multiset(p[left := p[right]][right := p[left]]) == multiset(p)
  {
  }

  /** The source's read of one bit: limb `limbs - 1 - bit / 64`, shifted and masked; it is bit `bit` of the key's value. */
  method ReadBit(k: Key, limbs: nat, bit: nat) returns (b: nat)
    requires |k| == limbs && bit < 64 * limbs
    ensures b == KeyBit(k, bit)
    ensures b == Bit(Value(k), bit)
  {
    var limbIndex := limbs - 1 - bit / 64;
    var bitInLimb := bit % 64;
    b := Bit(k[limbIndex], bitInLimb);
    KeyBitValue(k, bit);
  }

  /** The partition's exchange of a misplaced pair, with the picture it keeps. */
  method SwapMisplaced(p: seq<Key>, limbs: nat, bit: nat, left: nat, right: nat) returns (q: seq<Key>)
    requires Uniform(p, limbs) && Parted(p, bit, left, right) && left < right
    requires KeyBit(p[left], bit) == 1 && KeyBit(p[right], bit) == 0
    ensures Uniform(q, limbs) && multiset(q) == multiset(p)
    ensures Parted(q, bit, left + 1, right - 1)
  {
    PartedSwap(p, bit, left, right);
    UniformUpdate(p, left, p[right], limbs);
    UniformUpdate(p[left := p[right]], right, p[left], limbs);
    q := SwapKeys(p, left, right, limbs);
  }

  /**
   * Without a guard on `right`: when `a` has a key with the bit clear, a
   * set key at `right` seen while `left <= right` and `p[left]` is set
   * cannot be at position 0, so stepping `right` down does not wrap.
   */
  lemma RightPositive(a: seq<Key>, p: seq<Key>, bit: nat, left: nat, right: nat)
    requires multiset(p) == multiset(a) && HasBit(a, bit, 0)
    requires Parted(p, bit, left, right) && left <= right
    requires KeyBit(p[left], bit) == 1 && KeyBit(p[right], bit) == 1
    ensures right > 0
  {
    var i :| 0 <= i < |a| && KeyBit(a[i], bit) == 0;
    assert a[i] in multiset(p);
    var j :| 0 <= j < |p| && p[j] == a[i];
  }

  /** When the cursors have crossed, the picture is a split. */
  lemma PartedDone(p: seq<Key>, bit: nat, left: nat, right: int)
    requires Parted(p, bit, left, right) && left == right + 1
    ensures SplitAt(p, bit, left)
  {
  }

  /**
   * A split of a permutation of `a` is strictly inside the range when `a`
   * has keys with the bit clear and keys with the bit set.
   */
  lemma SplitBounds(a: seq<Key>, p: seq<Key>, bit: nat, left: nat)
    requires multiset(p) == multiset(a) && SplitAt(p, bit, left)
    ensures HasBit(a, bit, 0) ==> 0 < left
    ensures HasBit(a, bit, 1) ==> left < |a|
  {
    assert |p| == |multiset(p)| == |a|;
    if HasBit(a, bit, 0) {
      var i :| 0 <= i < |a| && KeyBit(a[i], bit) == 0;
      assert a[i] in multiset(p);
      var j :| 0 <= j < |p| && p[j] == a[i];
    }
    if HasBit(a, bit, 1) {
      var i :| 0 <= i < |a| && KeyBit(a[i], bit) == 1;
      assert a[i] in multiset(p);
      var j :| 0 <= j < |p| && p[j] == a[i];
    }
  }

  // ---------------------------------------------------------------------
  // Why a bit partition sorts
  // ---------------------------------------------------------------------

  /** Keys that agree above `bit` and all share bit `bit` agree above `bit - 1`. */
  lemma AgreeStep(a: seq<Key>, bit: nat)
    requires AgreeAbove(a, bit + 1)
    requires forall i :: 0 <= i < |a| ==> KeyBit(a[i], bit) == KeyBit(a[0], bit)
    ensures AgreeAbove(a, bit)
  {
    forall i | 0 <= i < |a|
      ensures Above(a[i], bit) == Above(a[0], bit)
    {
      KeyBitValue(a[i], bit);
      KeyBitValue(a[0], bit);
      AboveStep(a[i], a[0], bit);
    }
  }

  /** A sub-multiset of an agreeing range agrees. */
  lemma AgreeSub(a: seq<Key>, b: seq<Key>, m: nat)
    requires AgreeAbove(a, m)
    requires multiset(b) <= multiset(a)
    ensures AgreeAbove(b, m)
  {
    forall i | 0 <= i < |b|
      ensures Above(b[i], m) == Above(a[0], m)
    {
      assert b[i] in multiset(b);
      assert b[i] in a;
    }
  }

  /** When no bit is left to look at, agreement means every key is the same value, so the range is sorted. */
  lemma AgreeAllSorted(a: seq<Key>)
    requires AgreeAbove(a, 0)
    ensures SortedBy(a, Value)
  {
    forall i, j | 0 <= i < j < |a|
      ensures Value(a[i]) <= Value(a[j])
    {
      assert Above(a[i], 0) == Above(a[0], 0) == Above(a[j], 0);
    }
  }

  /**
   * The partition step's correctness: if the keys agree above `bit`, the
   * left part has bit `bit` clear and the right part has it set, and both
   * parts are sorted, then so is their concatenation.
   */
  lemma SplitSorted(lo: seq<Key>, hi: seq<Key>, bit: nat)
    requires AgreeAbove(lo + hi, bit + 1)
    requires forall i :: 0 <= i < |lo| ==> KeyBit(lo[i], bit) == 0
    requires forall i :: 0 <= i < |hi| ==> KeyBit(hi[i], bit) == 1
    requires SortedBy(lo, Value) && SortedBy(hi, Value)
    ensures SortedBy(lo + hi, Value)
  {
    var s := lo + hi;
    forall x, y | x in lo && y in hi
      ensures Value(x) <= Value(y)
    {
      var i :| 0 <= i < |lo| && lo[i] == x;
      var j :| 0 <= j < |hi| && hi[j] == y;
      assert s[i] == x && s[|lo| + j] == y;
      KeyBitValue(x, bit);
      KeyBitValue(y, bit);
      SplitOrder(x, y, bit);
    }
    SortedConcat(lo, hi, Value);
  }

  /** Every key of the part of a permutation `b` of `a` has the bit `a` says all its keys have. */
  lemma BitSub(a: seq<Key>, b: seq<Key>, bit: nat, v: nat)
    requires forall i :: 0 <= i < |a| ==> KeyBit(a[i], bit) == v
    requires multiset(b) <= multiset(a)
    ensures forall i :: 0 <= i < |b| ==> KeyBit(b[i], bit) == v
  {
    forall i | 0 <= i < |b|
      ensures KeyBit(b[i], bit) == v
    {
      assert b[i] in multiset(b);
      assert b[i] in a;
    }
  }

  /**
   * One partition level, first half: after splitting a permutation `p` of
   * `a` at `left`, the two parts together are `a`'s keys, and if `a`'s keys
   * agree above `bit` the parts agree one bit further down.
   */
  lemma SplitAgree(a: seq<Key>, p: seq<Key>, left: nat, bit: nat)
    requires multiset(p) == multiset(a) && SplitAt(p, bit, left)
    ensures multiset(p[..left]) + multiset(p[left..]) == multiset(a)
    ensures AgreeAbove(a, bit + 1) ==> AgreeAbove(p[..left], bit) && AgreeAbove(p[left..], bit)
  {
    var pl, pr := p[..left], p[left..];
    assert p == pl + pr;
    if AgreeAbove(a, bit + 1) {
      AgreeSub(a, pl, bit + 1);
      AgreeSub(a, pr, bit + 1);
      SplitParts(p, bit, left);
      AgreeStep(pl, bit);
      AgreeStep(pr, bit);
    }
  }

  /** The parts of a split have the bit the split says. */
  lemma SplitParts(p: seq<Key>, bit: nat, left: nat)
    requires SplitAt(p, bit, left)
    ensures forall i :: 0 <= i < |p[..left]| ==> KeyBit(p[..left][i], bit) == 0
    ensures forall i :: 0 <= i < |p[left..]| ==> KeyBit(p[left..][i], bit) == 1
  {
    forall i | 0 <= i < |p[left..]|
      ensures KeyBit(p[left..][i], bit) == 1
    {
      assert p[left..][i] == p[left + i];
    }
  }

  /**
   * One partition level, second half: two sorted permutations of the parts
   * concatenate to a sorted permutation of `a`.
   */
  lemma Assemble(a: seq<Key>, p: seq<Key>, left: nat, bit: nat, lo: seq<Key>, hi: seq<Key>)
    requires multiset(p) == multiset(a) && SplitAt(p, bit, left)
    requires multiset(lo) == multiset(p[..left]) && multiset(hi) == multiset(p[left..])
    ensures multiset(lo + hi) == multiset(a)
    ensures AgreeAbove(a, bit + 1) && SortedBy(lo, Value) && SortedBy(hi, Value) ==> SortedBy(lo + hi, Value)
  {
    SplitAgree(a, p, left, bit);
    if AgreeAbove(a, bit + 1) && SortedBy(lo, Value) && SortedBy(hi, Value) {
      AgreeSub(a, lo + hi, bit + 1);
      SplitParts(p, bit, left);
      BitSub(p[..left], lo, bit, 0);
      BitSub(p[left..], hi, bit, 1);
      SplitSorted(lo, hi, bit);
    }
  }

  /** At most one key, zero-word keys, or all-zero keys: already sorted. */
  lemma TrivialSorted(a: seq<Key>, limbs: nat)
    requires Uniform(a, limbs)
    requires |a| <= 1 || limbs == 0 || forall i :: 0 <= i < |a| ==> Value(a[i]) == 0
    ensures SortedBy(a, Value)
  {
    if limbs == 0 {
      forall i | 0 <= i < |a|
        ensures Value(a[i]) == 0
      {
        assert a[i] == [];
      }
    }
  }

  /** Every key of a range below `2^(mb + 1)` agrees (on zero) above `mb`. */
  lemma MaxBitAgree(a: seq<Key>, mb: int)
    requires mb >= -1
    requires forall i :: 0 <= i < |a| ==> Value(a[i]) < Pow2(mb + 1)
    ensures AgreeAbove(a, mb + 1)
  {
    forall i | 0 <= i < |a|
      ensures Above(a[i], mb + 1) == 0
    {
      ShrZero(Value(a[i]), mb + 1);
    }
  }

  /**
   * The result of a sort equals the stable insertion sort of its input,
   * the reference for what `std::sort` or `qsort` produce on the same keys.
   */
  lemma MatchesReference(a: seq<Key>, r: seq<Key>, limbs: nat)
    requires Uniform(a, limbs) && multiset(r) == multiset(a) && SortedBy(r, Value)
    ensures r == InsertionSort(a, Value, true)
  {
    InsertionSortPerm(a, Value, true);
    InsertionSortSorted(a, Value, true);
    forall x | x in r
      ensures |x| == limbs
    {
      assert x in multiset(a);
    }
    SortedPermUnique(r, InsertionSort(a, Value, true), limbs);
  }
}
