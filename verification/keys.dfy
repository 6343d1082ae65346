/**
 * Multi-word unsigned keys: a key is its 64-bit words, most significant
 * first.  Global bit `p` of a key lives in word `|k| - 1 - p / 64` at shift
 * `p % 64`, so bit `64 * |k| - 1` is the top bit of the first word.
 */
module Keys {
  import opened Bits

  type Key = seq<Word>

  /** The number a key denotes: the sum of `k[l] * 2^(64 * (|k| - 1 - l))`. */
  function Value(k: Key): nat {
    if |k| == 0 then 0 else Scale(k[0], 64 * (|k| - 1)) + Value(k[1..])
  }

  /** Every key in `a` has exactly `limbs` words. */
  predicate Uniform(a: seq<Key>, limbs: nat) {
    forall i :: 0 <= i < |a| ==> |a[i]| == limbs
  }

  /** Rearranging a sequence of keys keeps their widths. */
  lemma UniformPerm(a: seq<Key>, b: seq<Key>, limbs: nat)
    requires Uniform(a, limbs) && multiset(b) <= multiset(a)
    ensures Uniform(b, limbs)
  {
    forall i | 0 <= i < |b|
      ensures |b[i]| == limbs
    {
      assert b[i] in multiset(b);
      assert b[i] in a;
    }
  }

  /** Both sides of a cut of equal-width keys have that width. */
  lemma UniformSplit(a: seq<Key>, limbs: nat, m: nat)
    requires Uniform(a, limbs) && m <= |a|
    ensures Uniform(a[..m], limbs) && Uniform(a[m..], limbs)
  {
    assert forall i :: 0 <= i < |a| - m ==> a[m..][i] == a[m + i];
  }

  /** Overwriting one key with a key of the same width keeps the widths. */
  lemma UniformUpdate(a: seq<Key>, j: nat, v: Key, limbs: nat)
    requires Uniform(a, limbs) && j < |a| && |v| == limbs
    ensures Uniform(a[j := v], limbs)
  {
  }

  lemma {:induction false} ValueBound(k: Key)
    ensures Value(k) < Pow2(64 * |k|)
    decreases |k|
  {
    if |k| > 0 {
      var t := 64 * (|k| - 1);
      var rest := Value(k[1..]);
      ValueCons(k);
      ValueBound(k[1..]);
      DigitBounds(k[0], 0, WORD, rest, Pow2(t));
      Pow2Word();
      Pow2Add(64, t);
      assert 64 * |k| == 64 + t;
    }
  }

  /** Bounds on a leading digit carry over to the whole two-digit number. */
  lemma DigitBounds(c: nat, lo: nat, hi: nat, rest: nat, p: nat)
    requires lo <= c < hi && rest < p
    ensures lo * p <= c * p + rest < hi * p
  {
    MulSign(c - lo, p);
    MulSign(hi - c, p);
    assert c * p - lo * p == (c - lo) * p;
    assert hi * p - c * p == (hi - c) * p;
  }

  /**
   * Big-endian lexicographic order: the first differing word decides.
   */
  function LexLess(a: Key, b: Key): bool
    requires |a| == |b|
  {
    if |a| == 0 then false
    else if a[0] != b[0] then a[0] < b[0]
    else LexLess(a[1..], b[1..])
  }

  /** Two-digit numbers with digits below `p` compare like their digit pairs. */
  lemma DigitPairOrder(a0: nat, b0: nat, ra: nat, rb: nat, p: nat)
    requires ra < p && rb < p
    ensures a0 * p + ra < b0 * p + rb <==> a0 < b0 || (a0 == b0 && ra < rb)
  {
    MulSign(b0 - a0, p);
    MulSign(a0 - b0, p);
    assert (b0 - a0) * p == b0 * p - a0 * p;
  }

  /** Lexicographic order on words is numeric order on values. */
  lemma {:induction false} LexLessValue(a: Key, b: Key)
    requires |a| == |b|
    ensures LexLess(a, b) <==> Value(a) < Value(b)
    decreases |a|
  {
    if |a| > 0 {
      ValueCons(a);
      ValueCons(b);
      ValueBound(a[1..]);
      ValueBound(b[1..]);
      DigitPairOrder(a[0], b[0], Value(a[1..]), Value(b[1..]), Pow2(64 * (|a| - 1)));
      if a[0] == b[0] {
        LexLessValue(a[1..], b[1..]);
      }
    }
  }

  /** Keys of one width are equal exactly when their values are. */
  lemma ValueInjective(a: Key, b: Key)
    requires |a| == |b| && Value(a) == Value(b)
    ensures a == b
  {
    LexLessValue(a, b);
    LexLessValue(b, a);
    LexTotal(a, b);
  }

  lemma {:induction false} LexTotal(a: Key, b: Key)
    requires |a| == |b|
    ensures a == b || LexLess(a, b) || LexLess(b, a)
    decreases |a|
  {
    if |a| > 0 && a[0] == b[0] {
      LexTotal(a[1..], b[1..]);
      if a[1..] == b[1..] {
        assert a == [a[0]] + a[1..] && b == [b[0]] + b[1..];
      }
    }
  }

  /**
   * Bit `bit` of a key read the way the sources read it:
   * `(k[limbs - 1 - bit / 64] >> (bit % 64)) & 1`; bits past the key's
   * width read as 0.
   */
  function KeyBit(k: Key, bit: nat): nat {
    if bit < 64 * |k| then Bit(k[|k| - 1 - bit / 64], bit % 64) else 0
  }

  /** Reading one word at one shift gives the bit of the key's value. */
  lemma KeyBitValue(k: Key, bit: nat)
    ensures KeyBit(k, bit) == Bit(Value(k), bit)
  {
    if bit < 64 * |k| {
      KeyBitInside(k, bit);
    } else {
      ValueBound(k);
      Pow2Mono(64 * |k|, bit);
      ShrZero(Value(k), bit);
    }
  }

  lemma {:induction false} KeyBitInside(k: Key, bit: nat)
    requires bit < 64 * |k|
    ensures KeyBit(k, bit) == Bit(Value(k), bit)
    decreases |k|
  {
    var j := |k| - 1;
    if bit < 64 * j {
      ValueBitLow(k, bit);
      KeyBitInside(k[1..], bit);
      assert k[1..][|k[1..]| - 1 - bit / 64] == k[|k| - 1 - bit / 64];
      assert KeyBit(k, bit) == KeyBit(k[1..], bit);
    } else {
      ValueBitHigh(k, bit);
      assert bit / 64 == j && bit % 64 == bit - 64 * j;
    }
  }

  /** The value of a non-empty key split at its first word. */
  lemma ValueCons(k: Key)
    requires |k| > 0
    ensures Value(k) == k[0] * Pow2(64 * (|k| - 1)) + Value(k[1..])
  {
    ScaleMul(k[0], 64 * (|k| - 1));
  }

  /** Bits below the first word's share come from the rest of the key. */
  lemma ValueBitLow(k: Key, bit: nat)
    requires |k| > 0 && bit < 64 * (|k| - 1)
    ensures Bit(Value(k), bit) == Bit(Value(k[1..]), bit)
  {
    var rest := Value(k[1..]);
    var m := 64 * (|k| - 1);
    var hi := k[0];
    assert Value(k) == hi * Pow2(m) + rest by {
      ValueCons(k);
    }
    ValueBound(k[1..]);
    BitOfLow(Value(k), hi, rest, m, bit);
  }

  /** Bits in the first word's share come from the first word. */
  lemma ValueBitHigh(k: Key, bit: nat)
    requires |k| > 0 && 64 * (|k| - 1) <= bit
    ensures Bit(Value(k), bit) == Bit(k[0], bit - 64 * (|k| - 1))
  {
    var rest := Value(k[1..]);
    var m := 64 * (|k| - 1);
    var hi := k[0];
    assert Value(k) == hi * Pow2(m) + rest by {
      ValueCons(k);
    }
    ValueBound(k[1..]);
    BitOfHigh(Value(k), hi, rest, m, bit);
  }

  /** The value of `k` strictly above bit `m` - 1, i.e. `Value(k) >> m`. */
  function Above(k: Key, m: nat): nat {
    Shr(Value(k), m)
  }

  /**
   * Two keys that agree above bit `bit` and differ at `bit` are ordered by
   * that bit.
   */
  lemma SplitOrder(x: Key, y: Key, bit: nat)
    requires Above(x, bit + 1) == Above(y, bit + 1)
    requires Bit(Value(x), bit) == 0 && Bit(Value(y), bit) == 1
    ensures Value(x) < Value(y)
  {
    ShrStep(Value(x), bit);
    ShrStep(Value(y), bit);
    ShrLess(Value(x), Value(y), bit);
  }

  /** Two keys that agree above `bit` and at `bit` agree above `bit - 1`. */
  lemma AboveStep(x: Key, y: Key, bit: nat)
    requires Above(x, bit + 1) == Above(y, bit + 1)
    requires Bit(Value(x), bit) == Bit(Value(y), bit)
    ensures Above(x, bit) == Above(y, bit)
  {
    ShrStep(Value(x), bit);
    ShrStep(Value(y), bit);
  }

  /** Lexicographic order is decided by the first word where the keys differ. */
  lemma {:induction false} LexFirstDiff(a: Key, b: Key, i: nat)
    requires |a| == |b| && i < |a| && a[..i] == b[..i] && a[i] != b[i]
    ensures LexLess(a, b) <==> a[i] < b[i]
    decreases i
  {
    if i > 0 {
      assert a[0] == a[..i][0] == b[..i][0] == b[0];
      assert a[1..][..i - 1] == a[..i][1..] == b[..i][1..] == b[1..][..i - 1];
      LexFirstDiff(a[1..], b[1..], i - 1);
    }
  }

  /** A key is zero exactly when all its words are. */
  lemma {:induction false} ValueZero(k: Key)
    ensures Value(k) == 0 <==> forall l :: 0 <= l < |k| ==> k[l] == 0
    decreases |k|
  {
    if |k| > 0 {
      var hi, rest := k[0], k[1..];
      var m := 64 * (|k| - 1);
      ValueZero(rest);
      assert Value(k) == hi * Pow2(m) + Value(rest) by {
        ValueCons(k);
      }
      MulSign(hi, Pow2(m));
      if forall l :: 0 <= l < |rest| ==> rest[l] == 0 {
        assert forall l :: 1 <= l < |k| ==> k[l] == rest[l - 1];
      }
    }
  }

  /** Leading zero words do not contribute to the value. */
  lemma {:induction false} ValueDropZeros(k: Key, l: nat)
    requires l <= |k|
    requires forall i :: 0 <= i < l ==> k[i] == 0
    ensures Value(k) == Value(k[l..])
    decreases l
  {
    if l > 0 {
      ValueCons(k);
      ValueDropZeros(k[1..], l - 1);
      assert k[1..][l - 1..] == k[l..];
    }
  }

  /**
   * A key whose first word is non-zero has its top set bit in that word:
   * at `64 * (|k| - 1) + MsbPos(k[0])`.
   */
  lemma ValueMsb(k: Key, m: nat)
    requires |k| > 0 && k[0] != 0 && m == 64 * (|k| - 1) + MsbPos(k[0])
    ensures Pow2(m) <= Value(k) < Pow2(m + 1)
  {
    var t := 64 * (|k| - 1);
    var e := MsbPos(k[0]);
    var v, rest := Value(k), Value(k[1..]);
    ValueCons(k);
    assert v == k[0] * Pow2(t) + rest;
    ValueBound(k[1..]);
    DigitBounds(k[0], Pow2(e), Pow2(e + 1), rest, Pow2(t));
    Pow2Add(e, t);
    Pow2Add(e + 1, t);
    assert m == e + t && m + 1 == e + 1 + t;
    assert Pow2(m) == Pow2(e) * Pow2(t);
    assert Pow2(m + 1) == Pow2(e + 1) * Pow2(t);
  }
}
