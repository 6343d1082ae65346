/**
 * `pipe_sort_u512_index_radix8_fixed`: the radix index sort on 8-word keys,
 * from the top group at `startbit = 509` down in steps of 3.  The groups it
 * reaches where `digit3` loses bits are 62 (bit 64), 191 (bits 192 and
 * 193), 254 (bit 256), 383 (bits 384 and 385) and 446 (bit 448), so the
 * sort is in order whenever the keys agree on those seven bits; on the
 * input of `RadixFindings` it is not.
 */
module U512Index {
  import opened Keys
  import opened Ordering
  import opened RadixDigit
  import opened RadixRec
  import opened Radix8
  import opened RadixOrder
  import opened RadixFindings

  /** Eight 64-bit words, `w7` first. */
  const WIDTH: nat := 8

  /** The bits `digit3` never buckets on in the 512-bit sort. */
  const DROPPED: set<nat> := {64, 192, 193, 256, 384, 385, 448}

  /** The groups the sort reaches with shift 62 or 63 are exactly 62, 191, 254, 383 and 446. */
  lemma LossyGroups()
    ensures forall t: nat :: Visits(WIDTH, t) && t % 64 >= 62 <==> t == 62 || t == 191 || t == 254 || t == 383 || t == 446
  {
    forall t: nat
      ensures Visits(WIDTH, t) && t % 64 >= 62 <==> t == 62 || t == 191 || t == 254 || t == 383 || t == 446
    {
      var q := t / 64;
      assert t == 64 * q + t % 64;
      if Visits(WIDTH, t) && t % 64 >= 62 {
        assert q <= 7;
        assert q == 0 || q == 2 || q == 3 || q == 5 || q == 6;
      }
    }
  }

  /** `DROPPED` is every bit lost at those groups. */
  lemma DroppedCovers()
    ensures Covers(DROPPED, WIDTH)
  {
    LossyGroups();
  }

  /**
   * The entry point with the source's digit: a stable rearrangement of the
   * indexes, in key order for at most `CUTOFF` indexes or when the keys
   * agree on bits 64, 192, 193, 256, 384, 385 and 448.
   */
  method PipeSortU512Index(keys: seq<Key>, ids: seq<nat>) returns (r: seq<nat>)
    requires Uniform(keys, WIDTH) && Valid(keys, ids)
    ensures multiset(r) == multiset(ids)
    ensures forall v: nat :: Tied(r, Rank(keys), v) == Tied(ids, Rank(keys), v)
    ensures |ids| <= CUTOFF || AgreeAt(keys, DROPPED) ==> SortedBy(r, Rank(keys))
  {
    r := PipeSortIndexRadix8(AsWritten, keys, ids, WIDTH);
    SortIndexCorrect(AsWritten, keys, ids, WIDTH);
    SortedWhenAgree(keys, ids);
  }

  /** Agreement on the dropped bits is enough for order. */
  lemma SortedWhenAgree(keys: seq<Key>, ids: seq<nat>)
    requires Uniform(keys, WIDTH) && Valid(keys, ids)
    ensures AgreeAt(keys, DROPPED) ==> SortedBy(SortIndex(AsWritten, keys, ids, WIDTH), Rank(keys))
  {
    if AgreeAt(keys, DROPPED) {
      DroppedCovers();
      AsWrittenSorts(keys, ids, WIDTH, DROPPED);
    }
  }

  /** The entry point with the 3-bit window digit: a stable rearrangement in key order, always. */
  method PipeSortU512IndexCorrected(keys: seq<Key>, ids: seq<nat>) returns (r: seq<nat>)
    requires Uniform(keys, WIDTH) && Valid(keys, ids)
    ensures multiset(r) == multiset(ids)
    ensures forall v: nat :: Tied(r, Rank(keys), v) == Tied(ids, Rank(keys), v)
    ensures SortedBy(r, Rank(keys))
  {
    r := PipeSortIndexRadix8(Corrected, keys, ids, WIDTH);
    CorrectedSorts(keys, ids, WIDTH);
  }

  /**
   * 97 keys, key 0 with `w7 = 1` and the rest with `w6 = 2^63`: the
   * source's sort puts key 0, the largest, first.
   */
  lemma Misorders()
    ensures Trap(WIDTH)[0] == [1, 0, 0, 0, 0, 0, 0, 0]
    ensures forall i :: 1 <= i < 97 ==> Trap(WIDTH)[i] == [0, 0x8000_0000_0000_0000, 0, 0, 0, 0, 0, 0]
    ensures |SortIndex(AsWritten, Trap(WIDTH), Iota(97), WIDTH)| == 97
    ensures SortIndex(AsWritten, Trap(WIDTH), Iota(97), WIDTH)[0] == 0
    ensures !SortedBy(SortIndex(AsWritten, Trap(WIDTH), Iota(97), WIDTH), Rank(Trap(WIDTH)))
  {
    AsWrittenMisorders(WIDTH);
    assert Top(WIDTH) == [1, 0, 0, 0, 0, 0, 0, 0];
    assert Low(WIDTH) == [0, 0x8000_0000_0000_0000, 0, 0, 0, 0, 0, 0];
  }
}
