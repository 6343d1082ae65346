/**
 * `msd_radix8_rec` as a function, for either digit rule and any key width
 * (4 words for the 256-bit sort, 8 for the 512-bit one).  `Rec` sends at
 * most one index, or `startbit` below 0, or at most `CUTOFF` indexes to the
 * insertion sort; a pass whose indexes all share one digit goes straight to
 * the next group; otherwise every bucket is sorted on at `startbit - 3` and
 * the buckets follow one another.
 */
module RadixRec {
  import opened Keys
  import opened Ordering
  import opened RadixDigit
  import opened RadixBuckets

  /** `INSERTION_CUTOFF`. */
  const CUTOFF := 96

  /** What the recursion on `startbit` decreases. */
  function Level(s: int): nat {
    if s < 0 then 0 else s + 1
  }

  // ---------------------------------------------------------------------
  // The recursion as a function
  // ---------------------------------------------------------------------

  /** `msd_radix8_rec` on the range `ids` at group `startbit = s`. */
  function Rec(rule: DigitRule, keys: seq<Key>, ids: seq<nat>, s: int): seq<nat>
    decreases Level(s), 9
  {
    if |ids| <= 1 then ids
    else if s < 0 || |ids| <= CUTOFF then InsertionSort(ids, Rank(keys), true)
    else if NonEmpty(Counts(Pass(rule, keys, s), ids), 8) <= 1 then Rec(rule, keys, ids, s - 3)
    else RecUpTo(rule, keys, ids, s, 8)
  }

  /**
   * Buckets 0 to `b - 1` of the pass at `s`, each sorted on at `s - 3`, one
   * after the other: what the bucket loop has finished after `b` rounds.
   */
  function RecUpTo(rule: DigitRule, keys: seq<Key>, ids: seq<nat>, s: nat, b: nat): seq<nat>
    decreases Level(s), b
  {
    if b == 0 then []
    else RecUpTo(rule, keys, ids, s, b - 1) + Rec(rule, keys, Bucket(Pass(rule, keys, s), ids, b - 1), s - 3)
  }

  /** `pipe_sort_u256_index_radix8_fixed` / `..._u512_...`: start at the top group of a `width`-word key. */
  function SortIndex(rule: DigitRule, keys: seq<Key>, ids: seq<nat>, width: nat): seq<nat> {
    if |ids| <= 1 then ids else Rec(rule, keys, ids, 64 * width - 3)
  }
}
