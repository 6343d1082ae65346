/**
 * What the MSD radix-8 recursion promises: the result is a stable
 * permutation of the range whatever digit it buckets on, and it is sorted
 * when every pass it can reach is `Sound`.  The corrected digit is sound at
 * every group; `digit3` as written is sound wherever the bits it drops
 * are the same in every key.
 */
module RadixOrder {
  import opened Bits
  import opened Keys
  import opened Ordering
  import opened RadixDigit
  import opened RadixBuckets
  import opened RadixRec
  import opened Radix8

  // ---------------------------------------------------------------------
  // Stability
  // ---------------------------------------------------------------------

  /** Every index of `ids` that ranks `v` carries digit `d`. */
  ghost predicate RankDigit(p: Pass, ids: seq<nat>, rank: nat -> nat, v: nat, d: nat) {
    forall i :: 0 <= i < |ids| && rank(ids[i]) == v ==> D(p, ids[i]) == d
  }

  /** The bucket of the digit the indexes ranked `v` carry holds them all, in input order. */
  lemma {:induction false} TiedBucketIn(p: Pass, ids: seq<nat>, rank: nat -> nat, v: nat, d: nat)
    requires RankDigit(p, ids, rank, v, d)
    ensures Tied(Bucket(p, ids, d), rank, v) == Tied(ids, rank, v)
    decreases |ids|
  {
    if |ids| > 0 {
      var t, x := ids[..|ids| - 1], ids[|ids| - 1];
      assert RankDigit(p, t, rank, v, d) by {
        assert forall i :: 0 <= i < |t| ==> t[i] == ids[i];
      }
      TiedBucketIn(p, t, rank, v, d);
      TiedConcat(Bucket(p, t, d), if D(p, x) == d then [x] else [], rank, v);
      assert [x][..0] == [];
    }
  }

  /** Any other bucket holds none of them. */
  lemma TiedBucketOut(p: Pass, ids: seq<nat>, rank: nat -> nat, v: nat, d: nat, b: nat)
    requires RankDigit(p, ids, rank, v, d) && b != d
    ensures Tied(Bucket(p, ids, b), rank, v) == []
  {
    forall x | x in Bucket(p, ids, b)
      ensures rank(x) != v
    {
      BucketMember(p, ids, b, x);
    }
    TiedNone(Bucket(p, ids, b), rank, v);
  }

  /** Buckets `b` on hold the indexes ranked `v` in input order if their digit is `b` or more, else none. */
  lemma {:induction false} TiedGatherFrom(p: Pass, ids: seq<nat>, rank: nat -> nat, v: nat, d: nat, b: nat)
    requires RankDigit(p, ids, rank, v, d) && d < 8
    ensures b <= d ==> Tied(Gather(p, ids, b), rank, v) == Tied(ids, rank, v)
    ensures b > d ==> Tied(Gather(p, ids, b), rank, v) == []
    decreases 8 - b
  {
    if b < 8 {
      var bk, rest := Bucket(p, ids, b), Gather(p, ids, b + 1);
      var tb, tr := Tied(bk, rank, v), Tied(rest, rank, v);
      assert Tied(Gather(p, ids, b), rank, v) == tb + tr by {
        assert Gather(p, ids, b) == bk + rest;
        TiedConcat(bk, rest, rank, v);
      }
      TiedGatherFrom(p, ids, rank, v, d, b + 1);
      if b == d {
        TiedBucketIn(p, ids, rank, v, d);
        assert tb + tr == tb;
      } else {
        TiedBucketOut(p, ids, rank, v, d, b);
        assert tb + tr == tr;
      }
    }
  }

  /** Equal keys have equal digits, so the scatter keeps each group of equal keys in input order. */
  lemma TiedGather(p: Pass, ids: seq<nat>, v: nat, width: nat)
    requires Uniform(p.keys, width) && Valid(p.keys, ids)
    ensures Tied(Gather(p, ids, 0), Rank(p.keys), v) == Tied(ids, Rank(p.keys), v)
  {
    if i :| 0 <= i < |ids| && Rank(p.keys)(ids[i]) == v {
      var d := D(p, ids[i]);
      forall j | 0 <= j < |ids| && Rank(p.keys)(ids[j]) == v
        ensures D(p, ids[j]) == d
      {
        ValueInjective(p.keys[ids[j]], p.keys[ids[i]]);
      }
      TiedGatherFrom(p, ids, Rank(p.keys), v, d, 0);
    } else {
      TiedGatherFrom(p, ids, Rank(p.keys), v, 0, 0);
    }
  }

  /** The recursion keeps every group of equal keys in input order. */
  lemma {:induction false} RecStable(rule: DigitRule, keys: seq<Key>, ids: seq<nat>, s: int, v: nat, width: nat)
    requires Uniform(keys, width) && Valid(keys, ids)
    ensures Tied(Rec(rule, keys, ids, s), Rank(keys), v) == Tied(ids, Rank(keys), v)
    decreases Level(s), 10
  {
    if |ids| <= 1 {
    } else if s < 0 || |ids| <= CUTOFF {
      InsertionSortStable(ids, Rank(keys), v);
    } else if NonEmpty(Counts(Pass(rule, keys, s), ids), 8) <= 1 {
      RecStable(rule, keys, ids, s - 3, v, width);
    } else {
      var p := Pass(rule, keys, s);
      RecUpToStable(rule, keys, ids, s, 8, v, width);
      TiedGather(p, ids, v, width);
      assert Gather(p, ids, 8) == [];
    }
  }

  /** The finished buckets and the ones still to do hold, together, the scattered range's ties in order. */
  lemma RecUpToStable(rule: DigitRule, keys: seq<Key>, ids: seq<nat>, s: nat, b: nat, v: nat,
                                         width: nat)
    requires Uniform(keys, width) && Valid(keys, ids) && b <= 8
    ensures Tied(RecUpTo(rule, keys, ids, s, b), Rank(keys), v) + Tied(Gather(Pass(rule, keys, s), ids, b), Rank(keys), v)
         == Tied(Gather(Pass(rule, keys, s), ids, 0), Rank(keys), v)
    decreases Level(s), b + 1
  {
    if b > 0 {
      RecUpToStable(rule, keys, ids, s, b - 1, v, width);
      RecUpToStableStep(rule, keys, ids, s, b, v, width);
    }
  }

  /** Bucket `b`, sorted on at the next group, keeps its ties in order. */
  lemma BucketStable(rule: DigitRule, keys: seq<Key>, ids: seq<nat>, s: nat, b: nat, v: nat, width: nat)
    requires Uniform(keys, width) && Valid(keys, ids)
    ensures Tied(Rec(rule, keys, Bucket(Pass(rule, keys, s), ids, b), s - 3), Rank(keys), v)
         == Tied(Bucket(Pass(rule, keys, s), ids, b), Rank(keys), v)
    decreases Level(s), 0
  {
    ValidBucket(Pass(rule, keys, s), keys, ids, b);
    RecStable(rule, keys, Bucket(Pass(rule, keys, s), ids, b), s - 3, v, width);
  }

  /** Finishing bucket `b - 1` keeps its ties in order. */
  lemma RecUpToStableStep(rule: DigitRule, keys: seq<Key>, ids: seq<nat>, s: nat, b: nat, v: nat, width: nat)
    requires Uniform(keys, width) && Valid(keys, ids) && 0 < b <= 8
    ensures Tied(RecUpTo(rule, keys, ids, s, b), Rank(keys), v)
          + Tied(Gather(Pass(rule, keys, s), ids, b), Rank(keys), v)
         == Tied(RecUpTo(rule, keys, ids, s, b - 1), Rank(keys), v)
          + Tied(Gather(Pass(rule, keys, s), ids, b - 1), Rank(keys), v)
    decreases Level(s), 1
  {
    var p := Pass(rule, keys, s);
    var bk := Bucket(p, ids, b - 1);
    BucketStable(rule, keys, ids, s, b - 1, v, width);
    TiedMove(RecUpTo(rule, keys, ids, s, b - 1), Rec(rule, keys, bk, s - 3), bk, Gather(p, ids, b), Rank(keys), v);
  }

  // ---------------------------------------------------------------------
  // Order
  // ---------------------------------------------------------------------

  /** The key at position `i` of the range agrees with the first one from bit `m` up. */
  ghost predicate AgreesWithFirst(keys: seq<Key>, ids: seq<nat>, m: nat, i: nat)
    requires Valid(keys, ids) && i < |ids|
  {
    Above(keys[ids[i]], m) == Above(keys[ids[0]], m)
  }

  /** The keys of the range agree from bit `m` up. */
  ghost predicate AgreeAbove(keys: seq<Key>, ids: seq<nat>, m: nat)
    requires Valid(keys, ids)
  {
    forall i: nat :: i < |ids| ==> AgreesWithFirst(keys, ids, m, i)
  }

  /** Two keys of a range that agrees from bit `m` up agree there. */
  lemma AgreePair(keys: seq<Key>, ids: seq<nat>, m: nat, x: nat, y: nat)
    requires Valid(keys, ids) && AgreeAbove(keys, ids, m) && x in ids && y in ids
    ensures x < |keys| && y < |keys| && Above(keys[x], m) == Above(keys[y], m)
  {
    var i :| 0 <= i < |ids| && ids[i] == x;
    var j :| 0 <= j < |ids| && ids[j] == y;
    assert AgreesWithFirst(keys, ids, m, i) && AgreesWithFirst(keys, ids, m, j);
  }

  /**
   * Keys `x` and `y`, when they agree above the pass's group, are ordered by
   * their digits: a smaller digit means a smaller key, and equal digits mean
   * agreement from `startbit` up.
   */
  ghost predicate PairSound(p: Pass, x: nat, y: nat) {
    x < |p.keys| && y < |p.keys| && Above(p.keys[x], p.s + 3) == Above(p.keys[y], p.s + 3) ==>
      && (D(p, x) < D(p, y) ==> Value(p.keys[x]) < Value(p.keys[y]))
      && (D(p, x) == D(p, y) ==> Above(p.keys[x], p.s) == Above(p.keys[y], p.s))
  }

  /** The pass orders every pair of keys that agree above its group. */
  ghost predicate Sound(p: Pass) {
    forall x: nat, y: nat :: PairSound(p, x, y)
  }

  /** Every pass the recursion can reach from `s` down, in steps of 3, is sound. */
  ghost predicate SoundFrom(rule: DigitRule, keys: seq<Key>, s: int)
    decreases Level(s)
  {
    s < 0 || (Sound(Pass(rule, keys, s)) && SoundFrom(rule, keys, s - 3))
  }

  /** The keys of one bucket of a sound pass agree from `startbit` up. */
  lemma BucketAgree(p: Pass, ids: seq<nat>, b: nat)
    requires Valid(p.keys, ids) && Sound(p) && AgreeAbove(p.keys, ids, p.s + 3)
    ensures Valid(p.keys, Bucket(p, ids, b)) && AgreeAbove(p.keys, Bucket(p, ids, b), p.s)
  {
    var bk := Bucket(p, ids, b);
    ValidBucket(p, p.keys, ids, b);
    forall i: nat | i < |bk|
      ensures AgreesWithFirst(p.keys, bk, p.s, i)
    {
      BucketMember(p, ids, b, bk[0]);
      BucketMember(p, ids, b, bk[i]);
      AgreePair(p.keys, ids, p.s + 3, bk[i], bk[0]);
      assert PairSound(p, bk[i], bk[0]);
    }
  }

  /** Of two indexes of a range that agrees above a sound pass's group, the one with the smaller digit is the smaller key. */
  lemma SoundOrder(p: Pass, ids: seq<nat>, x: nat, y: nat)
    requires Valid(p.keys, ids) && Sound(p) && AgreeAbove(p.keys, ids, p.s + 3)
    requires x in ids && y in ids && D(p, x) < D(p, y)
    ensures x < |p.keys| && y < |p.keys| && Value(p.keys[x]) < Value(p.keys[y])
  {
    AgreePair(p.keys, ids, p.s + 3, x, y);
    assert PairSound(p, x, y);
  }

  /** When every index shares one digit, a sound pass leaves the range agreeing from `startbit` up. */
  lemma SingleAgree(p: Pass, ids: seq<nat>)
    requires Valid(p.keys, ids) && Sound(p) && AgreeAbove(p.keys, ids, p.s + 3)
    requires forall i :: 0 <= i < |ids| ==> D(p, ids[i]) == D(p, ids[0])
    ensures AgreeAbove(p.keys, ids, p.s)
  {
    forall i: nat | i < |ids|
      ensures AgreesWithFirst(p.keys, ids, p.s, i)
    {
      assert AgreesWithFirst(p.keys, ids, p.s + 3, i);
      assert PairSound(p, ids[i], ids[0]);
    }
  }

  /** Under sound passes, the recursion sorts a range that agrees above its group. */
  lemma {:induction false} RecSorted(rule: DigitRule, keys: seq<Key>, ids: seq<nat>, s: int)
    requires Valid(keys, ids) && SoundFrom(rule, keys, s)
    requires s >= 0 ==> AgreeAbove(keys, ids, s + 3)
    ensures SortedBy(Rec(rule, keys, ids, s), Rank(keys))
    decreases Level(s), 10
  {
    if |ids| <= 1 {
    } else if s < 0 || |ids| <= CUTOFF {
      InsertionSortSorted(ids, Rank(keys), true);
    } else {
      var p := Pass(rule, keys, s);
      if NonEmpty(Counts(p, ids), 8) <= 1 {
        SingleBucket(p, ids);
        SingleAgree(p, ids);
        assert s - 3 + 3 == s;
        RecSorted(rule, keys, ids, s - 3);
      } else {
        RecUpToSorted(rule, keys, ids, s, 8);
      }
    }
  }

  /** The finished buckets of a sound pass are in order. */
  lemma RecUpToSorted(rule: DigitRule, keys: seq<Key>, ids: seq<nat>, s: nat, b: nat)
    requires Valid(keys, ids) && Sound(Pass(rule, keys, s)) && SoundFrom(rule, keys, s - 3)
    requires AgreeAbove(keys, ids, s + 3) && b <= 8
    ensures SortedBy(RecUpTo(rule, keys, ids, s, b), Rank(keys))
    decreases Level(s), b + 1
  {
    if b > 0 {
      RecUpToSorted(rule, keys, ids, s, b - 1);
      RecUpToSortedStep(rule, keys, ids, s, b);
    }
  }

  /** Bucket `b - 1`, sorted on, follows the buckets before it. */
  lemma RecUpToSortedStep(rule: DigitRule, keys: seq<Key>, ids: seq<nat>, s: nat, b: nat)
    requires Valid(keys, ids) && Sound(Pass(rule, keys, s)) && SoundFrom(rule, keys, s - 3)
    requires AgreeAbove(keys, ids, s + 3) && 0 < b <= 8
    requires SortedBy(RecUpTo(rule, keys, ids, s, b - 1), Rank(keys))
    ensures SortedBy(RecUpTo(rule, keys, ids, s, b), Rank(keys))
    decreases Level(s), 1
  {
    BucketSorted(rule, keys, ids, s, b - 1);
    BucketAfter(rule, keys, ids, s, b - 1);
    SortedJoin(rule, keys, ids, s, b);
  }

  /** The finished buckets stay in order when the next one is in order and comes after them. */
  lemma SortedJoin(rule: DigitRule, keys: seq<Key>, ids: seq<nat>, s: nat, b: nat)
    requires 0 < b
    requires SortedBy(RecUpTo(rule, keys, ids, s, b - 1), Rank(keys))
    requires SortedBy(Rec(rule, keys, Bucket(Pass(rule, keys, s), ids, b - 1), s - 3), Rank(keys))
    requires AllLe(RecUpTo(rule, keys, ids, s, b - 1), Rec(rule, keys, Bucket(Pass(rule, keys, s), ids, b - 1), s - 3), Rank(keys))
    ensures SortedBy(RecUpTo(rule, keys, ids, s, b), Rank(keys))
  {
    SortedConcat(RecUpTo(rule, keys, ids, s, b - 1), Rec(rule, keys, Bucket(Pass(rule, keys, s), ids, b - 1), s - 3), Rank(keys));
  }

  /** Bucket `b` of a sound pass, sorted on at the next group, is in order. */
  lemma BucketSorted(rule: DigitRule, keys: seq<Key>, ids: seq<nat>, s: nat, b: nat)
    requires Valid(keys, ids) && Sound(Pass(rule, keys, s)) && SoundFrom(rule, keys, s - 3)
    requires AgreeAbove(keys, ids, s + 3)
    ensures SortedBy(Rec(rule, keys, Bucket(Pass(rule, keys, s), ids, b), s - 3), Rank(keys))
    decreases Level(s), 0
  {
    var p := Pass(rule, keys, s);
    BucketAgree(p, ids, b);
    assert s - 3 + 3 == s;
    RecSorted(rule, keys, Bucket(p, ids, b), s - 3);
  }

  /** Every key of bucket `b` of a sound pass, sorted on, is at least every key of the buckets before it. */
  lemma BucketAfter(rule: DigitRule, keys: seq<Key>, ids: seq<nat>, s: nat, b: nat)
    requires Valid(keys, ids) && Sound(Pass(rule, keys, s)) && AgreeAbove(keys, ids, s + 3)
    ensures AllLe(RecUpTo(rule, keys, ids, s, b), Rec(rule, keys, Bucket(Pass(rule, keys, s), ids, b), s - 3), Rank(keys))
  {
    var p := Pass(rule, keys, s);
    var left, right := RecUpTo(rule, keys, ids, s, b), Rec(rule, keys, Bucket(p, ids, b), s - 3);
    forall x, y | x in left && y in right
      ensures Rank(keys)(x) <= Rank(keys)(y)
    {
      RecMember(rule, keys, Bucket(p, ids, b), s - 3, y);
      RecUpToMember(rule, keys, ids, s, b, x);
      BucketMember(p, ids, b, y);
      SoundOrder(p, ids, x, y);
    }
  }

  /** Nothing is above the top of a `width`-word key. */
  lemma AgreeTop(keys: seq<Key>, ids: seq<nat>, width: nat)
    requires Uniform(keys, width) && Valid(keys, ids)
    ensures AgreeAbove(keys, ids, 64 * width)
  {
    forall i: nat | i < |ids|
      ensures AgreesWithFirst(keys, ids, 64 * width, i)
    {
      ValueBound(keys[ids[i]]);
      ShrZero(Value(keys[ids[i]]), 64 * width);
      ValueBound(keys[ids[0]]);
      ShrZero(Value(keys[ids[0]]), 64 * width);
    }
  }

  // ---------------------------------------------------------------------
  // The entry point
  // ---------------------------------------------------------------------

  /**
   * The entry point's result is a stable rearrangement of the indexes; it
   * is sorted by key when the range is within the cutoff or every reachable
   * pass is sound.
   */
  lemma SortIndexCorrect(rule: DigitRule, keys: seq<Key>, ids: seq<nat>, width: nat)
    requires Uniform(keys, width) && Valid(keys, ids)
    ensures multiset(SortIndex(rule, keys, ids, width)) == multiset(ids)
    ensures forall v: nat :: Tied(SortIndex(rule, keys, ids, width), Rank(keys), v) == Tied(ids, Rank(keys), v)
    ensures |ids| <= CUTOFF || SoundFrom(rule, keys, 64 * width - 3) ==> SortedBy(SortIndex(rule, keys, ids, width), Rank(keys))
  {
    var s := 64 * width - 3;
    if |ids| > 1 {
      RecPerm(rule, keys, ids, s);
      forall v: nat
        ensures Tied(Rec(rule, keys, ids, s), Rank(keys), v) == Tied(ids, Rank(keys), v)
      {
        RecStable(rule, keys, ids, s, v, width);
      }
      if |ids| <= CUTOFF {
        InsertionSortSorted(ids, Rank(keys), true);
      } else if SoundFrom(rule, keys, s) {
        AgreeTop(keys, ids, width);
        RecSorted(rule, keys, ids, s);
      }
    }
  }

  // ---------------------------------------------------------------------
  // Which digit rules are sound
  // ---------------------------------------------------------------------

  /** A digit that is the true 3-bit group less a key-independent amount makes a sound pass. */
  lemma SoundByOffset(p: Pass, lost: nat)
    requires forall x :: 0 <= x < |p.keys| ==> D(p, x) + lost == Shr(Value(p.keys[x]), p.s) % 8
    ensures Sound(p)
  {
    forall x: nat, y: nat
      ensures PairSound(p, x, y)
    {
      if x < |p.keys| && y < |p.keys| {
        DigitOrder(Value(p.keys[x]), Value(p.keys[y]), p.s, D(p, x), D(p, y), lost);
      }
    }
  }

  /**
   * Two numbers equal above the group at `s`, whose digits there are the
   * group less the same amount, are ordered by those digits.
   */
  lemma DigitOrder(vx: nat, vy: nat, s: nat, dx: nat, dy: nat, lost: nat)
    requires dx + lost == Shr(vx, s) % 8 && dy + lost == Shr(vy, s) % 8
    ensures Shr(vx, s + 3) == Shr(vy, s + 3) && dx < dy ==> vx < vy
    ensures Shr(vx, s + 3) == Shr(vy, s + 3) && dx == dy ==> Shr(vx, s) == Shr(vy, s)
  {
    ShrDigit(vx, s);
    ShrDigit(vy, s);
    if Shr(vx, s + 3) == Shr(vy, s + 3) && dx < dy {
      ShrLess(vx, vy, s);
    }
  }

  /** The corrected digit makes every pass sound. */
  lemma SoundCorrected(keys: seq<Key>, s: nat)
    ensures Sound(Pass(Corrected, keys, s))
  {
    var p := Pass(Corrected, keys, s);
    forall x | 0 <= x < |keys|
      ensures D(p, x) + 0 == Shr(Value(keys[x]), s) % 8
    {
      WindowDigitValue(keys[x], s);
    }
    SoundByOffset(p, 0);
  }

  lemma {:induction false} SoundFromCorrected(keys: seq<Key>, s: int)
    ensures SoundFrom(Corrected, keys, s)
    decreases Level(s)
  {
    if s >= 0 {
      SoundCorrected(keys, s);
      SoundFromCorrected(keys, s - 3);
    }
  }

  /** Every key drops the same bits at group `s`. */
  ghost predicate LostUniform(keys: seq<Key>, s: nat) {
    forall x :: 0 <= x < |keys| ==> Lost(keys[x], s) == Lost(keys[0], s)
  }

  /** `digit3` as written makes a sound pass when every key drops the same bits. */
  lemma SoundAsWritten(keys: seq<Key>, s: nat, width: nat)
    requires Uniform(keys, width) && s / 64 < width && LostUniform(keys, s)
    ensures Sound(Pass(AsWritten, keys, s))
  {
    var p := Pass(AsWritten, keys, s);
    if |keys| > 0 {
      forall x | 0 <= x < |keys|
        ensures D(p, x) + Lost(keys[0], s) == Shr(Value(keys[x]), s) % 8
      {
        Digit3Window(keys[x], s);
        WindowDigitValue(keys[x], s);
      }
      SoundByOffset(p, Lost(keys[0], s));
    }
  }

  /** ... and so at every group it reaches, when that holds at each of them. */
  lemma {:induction false} SoundFromAsWritten(keys: seq<Key>, s: int, width: nat)
    requires Uniform(keys, width) && s < 64 * width
    requires forall t: nat :: t <= s && t % 3 == s % 3 ==> LostUniform(keys, t)
    ensures SoundFrom(AsWritten, keys, s)
    decreases Level(s)
  {
    if s >= 0 {
      assert s / 64 < width;
      SoundAsWritten(keys, s, width);
      assert (s - 3) % 3 == s % 3;
      SoundFromAsWritten(keys, s - 3, width);
    }
  }

  /** The sort of `width`-word keys reaches group `t`: it is on the top group's track of steps of 3. */
  predicate Visits(width: nat, t: nat) {
    t <= 64 * width - 3 && t % 3 == (64 * width - 3) % 3
  }

  /** `bits` holds every bit `digit3` drops at a group the sort of `width`-word keys reaches. */
  ghost predicate Covers(bits: set<nat>, width: nat) {
    forall t: nat :: Visits(width, t) && t % 64 >= 62 ==> t + 2 in bits && (t % 64 == 63 ==> t + 1 in bits)
  }

  /** Every key has the first key's bit at each position in `bits`. */
  ghost predicate AgreeAt(keys: seq<Key>, bits: set<nat>) {
    forall x, b :: 0 <= x < |keys| && b in bits ==> KeyBit(keys[x], b) == KeyBit(keys[0], b)
  }

  /** Keys that agree on the bits a group drops drop the same amount there. */
  lemma LostUniformAt(keys: seq<Key>, s: nat, bits: set<nat>)
    requires AgreeAt(keys, bits)
    requires s % 64 >= 62 ==> s + 2 in bits
    requires s % 64 == 63 ==> s + 1 in bits
    ensures LostUniform(keys, s)
  {
    forall x | 0 <= x < |keys|
      ensures Lost(keys[x], s) == Lost(keys[0], s)
    {
      if s % 64 >= 62 {
        assert KeyBit(keys[x], s + 2) == KeyBit(keys[0], s + 2);
      }
      if s % 64 == 63 {
        assert KeyBit(keys[x], s + 1) == KeyBit(keys[0], s + 1);
      }
    }
  }

  /**
   * The as-written sort is a stable, sorted rearrangement whenever the keys
   * agree on every bit `digit3` drops at the groups it reaches.
   */
  lemma AsWrittenSorts(keys: seq<Key>, ids: seq<nat>, width: nat, bits: set<nat>)
    requires Uniform(keys, width) && Valid(keys, ids)
    requires Covers(bits, width) && AgreeAt(keys, bits)
    ensures SortedBy(SortIndex(AsWritten, keys, ids, width), Rank(keys))
  {
    var top := 64 * width - 3;
    forall t: nat | t <= top && t % 3 == top % 3
      ensures LostUniform(keys, t)
    {
      assert Visits(width, t);
      LostUniformAt(keys, t, bits);
    }
    SoundFromAsWritten(keys, top, width);
    SortIndexCorrect(AsWritten, keys, ids, width);
  }

  /** The corrected sort: a stable, sorted rearrangement of the indexes, for every input. */
  lemma CorrectedSorts(keys: seq<Key>, ids: seq<nat>, width: nat)
    requires Uniform(keys, width) && Valid(keys, ids)
    ensures multiset(SortIndex(Corrected, keys, ids, width)) == multiset(ids)
    ensures forall v: nat :: Tied(SortIndex(Corrected, keys, ids, width), Rank(keys), v) == Tied(ids, Rank(keys), v)
    ensures SortedBy(SortIndex(Corrected, keys, ids, width), Rank(keys))
  {
    SoundFromCorrected(keys, 64 * width - 3);
    SortIndexCorrect(Corrected, keys, ids, width);
  }

  /**
   * The entry point: nothing to do for at most one index, else start the
   * recursion at the top group.  It returns a stable rearrangement of the
   * indexes, sorted by key within the cutoff or when every pass is sound.
   */
  method PipeSortIndexRadix8(rule: DigitRule, keys: seq<Key>, ids: seq<nat>, width: nat) returns (r: seq<nat>)
    requires Uniform(keys, width) && Valid(keys, ids)
    ensures r == SortIndex(rule, keys, ids, width)
    ensures multiset(r) == multiset(ids)
    ensures forall v: nat :: Tied(r, Rank(keys), v) == Tied(ids, Rank(keys), v)
    ensures |ids| <= CUTOFF || SoundFrom(rule, keys, 64 * width - 3) ==> SortedBy(r, Rank(keys))
  {
    if |ids| <= 1 {
      r := ids;
    } else {
      r := MsdRadix8Rec(rule, keys, ids, 64 * width - 3, width);
    }
    SortIndexCorrect(rule, keys, ids, width);
  }
}
