/**
 * The digit and the comparison of the MSD radix-8 index sorts (the 256-bit
 * and the 512-bit one share them; only the width differs).  A key is its
 * words most significant first, so the source's limb `l` (`w0` is limb 0)
 * is `k[|k| - 1 - l]`.
 *
 * `Digit3` is `digit3` as written: it reads the one limb `startbit / 64`
 * shifted by `startbit % 64`, so when the shift is 62 or 63 the top one or
 * two bits of the 3-bit group fall off the end of that limb.  `WindowDigit`
 * is the digit the comments describe: global bits `startbit`,
 * `startbit + 1`, `startbit + 2`, wherever they live.  `Lost` is exactly
 * what the first leaves out of the second.
 */
module RadixDigit {
  import opened Bits
  import opened Keys

  /** Which digit a pass buckets on: the source's, or the 3-bit window it means. */
  datatype DigitRule = AsWritten | Corrected

  /**
   * `limb_at_0_3` / `limb_at_0_7`: limb `l` counted from the least
   * significant word; any other `l` reads `w0`.
   */
  function LimbAt(k: Key, l: int): (w: Word)
    requires |k| > 0
    ensures 0 <= l < |k| ==> w == k[|k| - 1 - l]
    ensures !(0 <= l < |k|) ==> w == k[|k| - 1]
  {
    if 1 <= l < |k| then k[|k| - 1 - l] else k[|k| - 1]
  }

  /** Limb `l` holds the key's bits `64 * l` to `64 * l + 63`. */
  lemma LimbBits(k: Key, l: nat, p: nat)
    requires l < |k| && p < 64
    ensures Bit(LimbAt(k, l), p) == KeyBit(k, 64 * l + p)
    ensures Bit(LimbAt(k, l), p) == Bit(Value(k), 64 * l + p)
  {
    assert (64 * l + p) / 64 == l && (64 * l + p) % 64 == p;
    KeyBitValue(k, 64 * l + p);
  }

  /** `digit3` as written: `(limb(startbit / 64) >> (startbit % 64)) & 7`. */
  function Digit3(k: Key, s: nat): (d: nat)
    requires |k| > 0
    ensures d < 8
  {
    Shr(LimbAt(k, s / 64), s % 64) % 8
  }

  /** The 3-bit group at `s`: global bits `s`, `s + 1` and `s + 2` of the key. */
  function WindowDigit(k: Key, s: nat): (d: nat)
    ensures d < 8
  {
    KeyBit(k, s) + 2 * KeyBit(k, s + 1) + 4 * KeyBit(k, s + 2)
  }

  /** The group's bits `Digit3` drops: those past the top of limb `s / 64`. */
  function Lost(k: Key, s: nat): nat {
    (if s % 64 == 63 then 2 * KeyBit(k, s + 1) else 0)
    + (if s % 64 >= 62 then 4 * KeyBit(k, s + 2) else 0)
  }

  /** The digit a rule reads. */
  function Digit(rule: DigitRule, k: Key, s: nat): (d: nat)
    requires |k| > 0
    ensures d < 8
  {
    if rule == AsWritten then Digit3(k, s) else WindowDigit(k, s)
  }

  /** The window digit is the key's value shifted right by `s`, masked with 7. */
  lemma WindowDigitValue(k: Key, s: nat)
    ensures WindowDigit(k, s) == Shr(Value(k), s) % 8
  {
    KeyBitValue(k, s);
    KeyBitValue(k, s + 1);
    KeyBitValue(k, s + 2);
    DigitBits(Value(k), s);
  }

  /**
   * `digit3` is the window digit less the bits it drops; in particular the
   * two agree whenever `startbit % 64 <= 61`.
   */
  lemma Digit3Window(k: Key, s: nat)
    requires s / 64 < |k|
    ensures Digit3(k, s) + Lost(k, s) == WindowDigit(k, s)
    ensures s % 64 <= 61 ==> Digit3(k, s) == WindowDigit(k, s)
  {
    var l, sh := s / 64, s % 64;
    var w := LimbAt(k, l);
    DigitBits(w, sh);
    LimbBits(k, l, sh);
    assert s == 64 * l + sh;
    if sh <= 62 {
      LimbBits(k, l, sh + 1);
    } else {
      WordBitZero(w, sh + 1);
    }
    if sh <= 61 {
      LimbBits(k, l, sh + 2);
    } else {
      WordBitZero(w, sh + 2);
    }
  }

  /** A word has no bit at position 64 or above. */
  lemma WordBitZero(w: Word, p: nat)
    requires p >= 64
    ensures Bit(w, p) == 0
  {
    Pow2Word();
    Pow2Mono(64, p);
    ShrZero(w, p);
  }

  /**
   * `u256_less_by_idx` / `u512_less_by_idx`: `keys[ia] < keys[ib]`, word by
   * word from the most significant one; the numeric order, so never true
   * of one index against itself.
   */
  function LessByIdx(keys: seq<Key>, ia: nat, ib: nat): (r: bool)
    requires ia < |keys| && ib < |keys| && |keys[ia]| == |keys[ib]|
    ensures r <==> Value(keys[ia]) < Value(keys[ib])
    ensures ia == ib ==> !r
  {
    LexLessValue(keys[ia], keys[ib]);
    LexLess(keys[ia], keys[ib])
  }

  /** The order the index sorts establish: an index ranks as the value of its key. */
  function Rank(keys: seq<Key>): nat -> nat {
    (id: nat) => if id < |keys| then Value(keys[id]) else 0
  }

  /** Every index names a key. */
  predicate Valid(keys: seq<Key>, ids: seq<nat>) {
    forall i :: 0 <= i < |ids| ==> ids[i] < |keys|
  }
}
