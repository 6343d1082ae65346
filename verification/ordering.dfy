/**
 * Order facts shared by every sort in the model, stated over a ranking
 * `rank: T -> nat` (a key's numeric value, or the value of the key an index
 * points at), and the functional insertion sort that all four insertion
 * loops of the sources compute.
 *
 * The loops differ only in when they move an element one slot to the right
 * while inserting `x`: on `rank(a[j]) > rank(x)` (strict, ties stay put, so
 * the sort is stable) or on `rank(a[j]) >= rank(x)` (ties are passed over).
 */
module Ordering {

  predicate SortedBy<T>(s: seq<T>, rank: T -> nat) {
    forall i, j :: 0 <= i < j < |s| ==> rank(s[i]) <= rank(s[j])
  }

  /** Every element of `a` ranks at most every element of `b`. */
  predicate AllLe<T(==)>(a: seq<T>, b: seq<T>, rank: T -> nat) {
    forall x, y :: x in a && y in b ==> rank(x) <= rank(y)
  }

  /** `rank` tells the elements of `s` apart. */
  predicate Injective<T(==)>(s: seq<T>, rank: T -> nat) {
    forall x, y :: x in s && y in s && rank(x) == rank(y) ==> x == y
  }

  /** Whether inserting an element ranked `rx` moves one ranked `ra` to the right. */
  predicate Shifts(ra: nat, rx: nat, strict: bool) {
    if strict then ra > rx else ra >= rx
  }

  /** Insert `x` into `s` by walking from the back past every element the rule shifts. */
  function Insert<T>(s: seq<T>, x: T, rank: T -> nat, strict: bool): seq<T> {
    if |s| == 0 then [x]
    else if Shifts(rank(s[|s| - 1]), rank(x), strict) then Insert(s[..|s| - 1], x, rank, strict) + [s[|s| - 1]]
    else s + [x]
  }

  /** Insertion sort: insert each element, left to right, into the sorted prefix. */
  function InsertionSort<T>(s: seq<T>, rank: T -> nat, strict: bool): seq<T> {
    if |s| == 0 then []
    else Insert(InsertionSort(s[..|s| - 1], rank, strict), s[|s| - 1], rank, strict)
  }

  /** The elements of `s` ranked `v`, in their order in `s`. */
  function Tied<T>(s: seq<T>, rank: T -> nat, v: nat): seq<T> {
    if |s| == 0 then []
    else Tied(s[..|s| - 1], rank, v) + (if rank(s[|s| - 1]) == v then [s[|s| - 1]] else [])
  }

  /** A stable reordering keeps every group of tied elements in its original order. */
  ghost predicate StableFor<T>(r: seq<T>, s: seq<T>, rank: T -> nat) {
    forall v: nat :: Tied(r, rank, v) == Tied(s, rank, v)
  }

  /** Each element ranks at most its successor. */
  predicate AdjacentSorted<T>(s: seq<T>, rank: T -> nat) {
    forall i :: 1 <= i < |s| ==> rank(s[i - 1]) <= rank(s[i])
  }

  /** Checking neighbours is enough: a sequence is sorted exactly when each pair of neighbours is. */
  lemma {:induction false} AdjacentIsSorted<T>(s: seq<T>, rank: T -> nat)
    ensures AdjacentSorted(s, rank) <==> SortedBy(s, rank)
    decreases |s|
  {
    if |s| > 1 && AdjacentSorted(s, rank) {
      var t := s[..|s| - 1];
      assert AdjacentSorted(t, rank);
      AdjacentIsSorted(t, rank);
      forall i, j | 0 <= i < j < |s|
        ensures rank(s[i]) <= rank(s[j])
      {
        if j < |s| - 1 {
          assert s[i] == t[i] && s[j] == t[j];
        } else if i < j - 1 {
          assert s[i] == t[i] && s[j - 1] == t[j - 1];
        }
      }
    }
  }

  // ---------------------------------------------------------------------
  // Concatenation
  // ---------------------------------------------------------------------

  lemma SortedConcat<T>(a: seq<T>, b: seq<T>, rank: T -> nat)
    requires SortedBy(a, rank) && SortedBy(b, rank) && AllLe(a, b, rank)
    ensures SortedBy(a + b, rank)
  {
    var s := a + b;
    forall i, j | 0 <= i < j < |s|
      ensures rank(s[i]) <= rank(s[j])
    {
      if i < |a| && j >= |a| {
        assert s[i] in a && s[j] in b;
      }
    }
  }

  /** `AllLe` carries over to sub-multisets of either side. */
  lemma AllLeSub<T>(a: seq<T>, b: seq<T>, a2: seq<T>, b2: seq<T>, rank: T -> nat)
    requires AllLe(a, b, rank)
    requires multiset(a2) <= multiset(a) && multiset(b2) <= multiset(b)
    ensures AllLe(a2, b2, rank)
  {
    forall x, y | x in a2 && y in b2
      ensures rank(x) <= rank(y)
    {
      assert x in multiset(a2) && y in multiset(b2);
      assert x in a && y in b;
    }
  }

  /** `AllLe` of a concatenation on the left is `AllLe` of each part. */
  lemma AllLeConcat<T>(a: seq<T>, b: seq<T>, c: seq<T>, rank: T -> nat)
    requires AllLe(a, c, rank) && AllLe(b, c, rank)
    ensures AllLe(a + b, c, rank)
  {
  }

  lemma {:induction false} TiedConcat<T>(a: seq<T>, b: seq<T>, rank: T -> nat, v: nat)
    ensures Tied(a + b, rank, v) == Tied(a, rank, v) + Tied(b, rank, v)
    decreases |b|
  {
    if |b| == 0 {
      assert a + b == a;
    } else {
      TiedConcat(a, b[..|b| - 1], rank, v);
      assert (a + b)[..|a + b| - 1] == a + b[..|b| - 1];
    }
  }

  /**
   * Moving the seam between a finished part and a pending one keeps the tie
   * groups, when the part that moves was replaced by one with the same ties.
   */
  lemma TiedMove<T>(done: seq<T>, sorted: seq<T>, bk: seq<T>, rest: seq<T>, rank: T -> nat, v: nat)
    requires Tied(sorted, rank, v) == Tied(bk, rank, v)
    ensures Tied(done + sorted, rank, v) + Tied(rest, rank, v) == Tied(done, rank, v) + Tied(bk + rest, rank, v)
  {
    var td, ts, tb, tr := Tied(done, rank, v), Tied(sorted, rank, v), Tied(bk, rank, v), Tied(rest, rank, v);
    assert Tied(done + sorted, rank, v) == td + ts by {
      TiedConcat(done, sorted, rank, v);
    }
    assert Tied(bk + rest, rank, v) == tb + tr by {
      TiedConcat(bk, rest, rank, v);
    }
    AppendShift(td, ts, tb, tr);
  }

  /** `(a + b) + d == a + (c + d)` when `b == c`. */
  lemma AppendShift<T>(a: seq<T>, b: seq<T>, c: seq<T>, d: seq<T>)
    requires b == c
    ensures (a + b) + d == a + (c + d)
  {
  }

  /** No element of `s` is ranked `v`: its tie group at `v` is empty. */
  lemma {:induction false} TiedNone<T>(s: seq<T>, rank: T -> nat, v: nat)
    requires forall x :: x in s ==> rank(x) != v
    ensures Tied(s, rank, v) == []
    decreases |s|
  {
    if |s| > 0 {
      assert forall x :: x in s[..|s| - 1] ==> x in s;
      TiedNone(s[..|s| - 1], rank, v);
    }
  }

  // ---------------------------------------------------------------------
  // Insertion
  // ---------------------------------------------------------------------

  /** Where `Insert` puts `x`: after the longest suffix the rule shifts. */
  function InsertPos<T>(s: seq<T>, x: T, rank: T -> nat, strict: bool): (h: nat)
    ensures h <= |s|
  {
    if |s| == 0 then 0
    else if Shifts(rank(s[|s| - 1]), rank(x), strict) then InsertPos(s[..|s| - 1], x, rank, strict)
    else |s|
  }

  /**
   * `Insert` places `x` at `InsertPos`: everything after it was shifted past,
   * and the element just before it was not.
   */
  lemma {:induction false} InsertShape<T>(s: seq<T>, x: T, rank: T -> nat, strict: bool)
    ensures var h := InsertPos(s, x, rank, strict);
      && Insert(s, x, rank, strict) == s[..h] + [x] + s[h..]
      && (forall k :: h <= k < |s| ==> Shifts(rank(s[k]), rank(x), strict))
      && (h > 0 ==> !Shifts(rank(s[h - 1]), rank(x), strict))
    decreases |s|, 1
  {
    if |s| > 0 && Shifts(rank(s[|s| - 1]), rank(x), strict) {
      InsertShapeShift(s, x, rank, strict);
    } else if |s| > 0 {
      assert s[..|s|] == s;
    }
  }

  /** `InsertShape` when the last element is shifted past. */
  lemma {:induction false} InsertShapeShift<T>(s: seq<T>, x: T, rank: T -> nat, strict: bool)
    requires |s| > 0 && Shifts(rank(s[|s| - 1]), rank(x), strict)
    ensures var h := InsertPos(s, x, rank, strict);
      && Insert(s, x, rank, strict) == s[..h] + [x] + s[h..]
      && (forall k :: h <= k < |s| ==> Shifts(rank(s[k]), rank(x), strict))
      && (h > 0 ==> !Shifts(rank(s[h - 1]), rank(x), strict))
    decreases |s|, 0
  {
    var t, last := s[..|s| - 1], s[|s| - 1];
    InsertShape(t, x, rank, strict);
    var h := InsertPos(t, x, rank, strict);
    assert InsertPos(s, x, rank, strict) == h;
    assert Insert(s, x, rank, strict) == Insert(t, x, rank, strict) + [last];
    SnocSlices(s, h, x);
    forall k | h <= k < |s|
      ensures Shifts(rank(s[k]), rank(x), strict)
    {
      if k < |s| - 1 {
        assert s[k] == t[k];
      }
    }
    if h > 0 {
      assert s[h - 1] == t[h - 1];
    }
  }

  /** Cutting `s` at `h` after dropping its last element, and putting that element back. */
  lemma SnocSlices<T>(s: seq<T>, h: nat, x: T)
    requires h < |s|
    ensures var t := s[..|s| - 1];
      t[..h] + [x] + t[h..] + [s[|s| - 1]] == s[..h] + [x] + s[h..]
  {
    var t, last := s[..|s| - 1], s[|s| - 1];
    assert t[..h] == s[..h];
    assert t[h..] + [last] == s[h..];
  }

  lemma InsertPerm<T>(s: seq<T>, x: T, rank: T -> nat, strict: bool)
    ensures multiset(Insert(s, x, rank, strict)) == multiset(s) + multiset{x}
    ensures |Insert(s, x, rank, strict)| == |s| + 1
  {
    InsertShape(s, x, rank, strict);
    var h := InsertPos(s, x, rank, strict);
    assert s == s[..h] + s[h..];
  }

  /** Where the elements of `s[..h] + [x] + s[h..]` come from. */
  lemma InsertIndex<T>(s: seq<T>, x: T, h: nat, r: seq<T>)
    requires h <= |s| && r == s[..h] + [x] + s[h..]
    ensures |r| == |s| + 1 && r[h] == x
    ensures forall k :: 0 <= k < h ==> r[k] == s[k]
    ensures forall k :: h < k < |r| ==> r[k] == s[k - 1]
  {
  }

  lemma InsertSorted<T>(s: seq<T>, x: T, rank: T -> nat, strict: bool)
    requires SortedBy(s, rank)
    ensures SortedBy(Insert(s, x, rank, strict), rank)
  {
    InsertShape(s, x, rank, strict);
    var h := InsertPos(s, x, rank, strict);
    var r := Insert(s, x, rank, strict);
    InsertIndex(s, x, h, r);
    forall i, j | 0 <= i < j < |r|
      ensures rank(r[i]) <= rank(r[j])
    {
      if j < h || i > h {
      } else if j == h {
        assert rank(s[i]) <= rank(s[h - 1]);
      } else if i == h {
        assert rank(x) <= rank(s[h]) <= rank(s[j - 1]);
      } else {
        assert rank(s[i]) <= rank(s[j - 1]);
      }
    }
  }

  /**
   * Strict insertion keeps ties in order: `x` lands after every element
   * ranked like it.
   */
  lemma InsertTied<T>(s: seq<T>, x: T, rank: T -> nat, v: nat)
    ensures Tied(Insert(s, x, rank, true), rank, v)
         == Tied(s, rank, v) + (if rank(x) == v then [x] else [])
  {
    InsertShape(s, x, rank, true);
    var h := InsertPos(s, x, rank, true);
    assert s == s[..h] + s[h..];
    TiedConcat(s[..h], s[h..], rank, v);
    TiedConcat(s[..h] + [x], s[h..], rank, v);
    TiedConcat(s[..h], [x], rank, v);
    assert Tied([x], rank, v) == (if rank(x) == v then [x] else []) by {
      assert [x][..0] == [];
    }
    if rank(x) == v {
      forall y | y in s[h..]
        ensures rank(y) != v
      {
      }
      TiedNone(s[h..], rank, v);
    }
  }

  /**
   * One step of an insertion loop that has moved `s[j..]` right by one: if
   * the rule shifts `s[j - 1]` too, the loop may move one slot further left.
   */
  lemma InsertStep<T>(s: seq<T>, x: T, rank: T -> nat, strict: bool, j: nat)
    requires 0 < j <= |s|
    requires Shifts(rank(s[j - 1]), rank(x), strict)
    ensures Insert(s[..j], x, rank, strict) + s[j..] == Insert(s[..j - 1], x, rank, strict) + s[j - 1..]
  {
    assert s[..j][..j - 1] == s[..j - 1];
    assert [s[j - 1]] + s[j..] == s[j - 1..];
  }

  /** An insertion loop stops where the rule no longer shifts: `x` goes at `j`. */
  lemma InsertStop<T>(s: seq<T>, x: T, rank: T -> nat, strict: bool, j: nat)
    requires j <= |s|
    requires j == 0 || !Shifts(rank(s[j - 1]), rank(x), strict)
    ensures Insert(s[..j], x, rank, strict) == s[..j] + [x]
  {
  }

  /**
   * The outer loop's picture of an in-place insertion sort of `a`: `r`
   * holds the sorted first `i` elements followed by the rest of `a`.
   */
  predicate SortedPrefix<T(==)>(r: seq<T>, a: seq<T>, rank: T -> nat, strict: bool, i: nat) {
    && i <= |a| == |r|
    && r[..i] == InsertionSort(a[..i], rank, strict)
    && r[i..] == a[i..]
  }

  lemma SortedPrefixStart<T>(a: seq<T>, rank: T -> nat, strict: bool)
    requires |a| > 0
    ensures SortedPrefix(a, a, rank, strict, 1)
  {
    assert a[..1][..0] == [];
  }

  lemma SortedPrefixDone<T>(r: seq<T>, a: seq<T>, rank: T -> nat, strict: bool)
    requires SortedPrefix(r, a, rank, strict, |a|)
    ensures r == InsertionSort(a, rank, strict)
  {
    assert a[..|a|] == a && r[..|r|] == r;
  }

  /** Inserting `r[i]` into the sorted prefix extends the picture by one. */
  lemma SortedPrefixAdvance<T>(a: seq<T>, r: seq<T>, t: seq<T>, rank: T -> nat, strict: bool, i: nat)
    requires SortedPrefix(r, a, rank, strict, i) && i < |a| == |t|
    requires t[..i + 1] == Insert(r[..i], r[i], rank, strict) && t[i + 1..] == r[i + 1..]
    ensures SortedPrefix(t, a, rank, strict, i + 1)
  {
    assert a[..i + 1][..i] == a[..i];
    assert r[i] == r[i..][0] == a[i..][0] == a[i];
    assert r[i + 1..] == r[i..][1..] == a[i..][1..] == a[i + 1..];
  }

  /**
   * The in-place inner loop's picture: `r` holds the first `j` elements of
   * `s`, a hole at `j`, the rest of `s` shifted one right, then the untouched
   * tail of `a`.  Copying `r[j - 1]` into the hole moves the hole left.
   */
  predicate Hole<T(==)>(r: seq<T>, s: seq<T>, a: seq<T>, i: nat, j: nat) {
    && j <= i == |s| && i < |r| == |a|
    && r[..j] == s[..j] && r[j + 1..i + 1] == s[j..] && r[i + 1..] == a[i + 1..]
  }

  lemma HoleStart<T>(r: seq<T>, a: seq<T>, i: nat)
    requires i < |r| == |a| && r[i + 1..] == a[i + 1..]
    ensures Hole(r, r[..i], a, i, i)
  {
  }

  lemma HoleShift<T>(r: seq<T>, s: seq<T>, a: seq<T>, i: nat, j: nat)
    requires Hole(r, s, a, i, j) && j > 0
    ensures r[j - 1] == s[j - 1]
    ensures Hole(r[j := r[j - 1]], s, a, i, j - 1)
  {
    assert r[..j][j - 1] == s[..j][j - 1];
    var r' := r[j := r[j - 1]];
    assert r'[..j - 1] == r[..j - 1] == r[..j][..j - 1] == s[..j][..j - 1] == s[..j - 1];
    assert r'[j..i + 1] == [s[j - 1]] + r[j + 1..i + 1];
    assert s[j - 1..] == [s[j - 1]] + s[j..];
  }

  lemma HoleFill<T>(r: seq<T>, s: seq<T>, a: seq<T>, i: nat, j: nat, x: T)
    requires Hole(r, s, a, i, j)
    ensures r[j := x][..i + 1] == s[..j] + [x] + s[j..]
    ensures r[j := x][i + 1..] == a[i + 1..]
  {
    var r' := r[j := x];
    assert r'[..i + 1] == r[..j] + [x] + r[j + 1..i + 1];
  }

  // ---------------------------------------------------------------------
  // Insertion sort
  // ---------------------------------------------------------------------

  lemma {:induction false} InsertionSortPerm<T>(s: seq<T>, rank: T -> nat, strict: bool)
    ensures multiset(InsertionSort(s, rank, strict)) == multiset(s)
    ensures |InsertionSort(s, rank, strict)| == |s|
    decreases |s|
  {
    if |s| > 0 {
      var t := s[..|s| - 1];
      InsertionSortPerm(t, rank, strict);
      InsertPerm(InsertionSort(t, rank, strict), s[|s| - 1], rank, strict);
      assert s == t + [s[|s| - 1]];
    }
  }

  lemma {:induction false} InsertionSortSorted<T>(s: seq<T>, rank: T -> nat, strict: bool)
    ensures SortedBy(InsertionSort(s, rank, strict), rank)
    decreases |s|
  {
    if |s| > 0 {
      InsertionSortSorted(s[..|s| - 1], rank, strict);
      InsertSorted(InsertionSort(s[..|s| - 1], rank, strict), s[|s| - 1], rank, strict);
    }
  }

  /** The strict insertion sort is stable. */
  lemma {:induction false} InsertionSortStable<T>(s: seq<T>, rank: T -> nat, v: nat)
    ensures Tied(InsertionSort(s, rank, true), rank, v) == Tied(s, rank, v)
    decreases |s|
  {
    if |s| > 0 {
      InsertionSortStable(s[..|s| - 1], rank, v);
      InsertTied(InsertionSort(s[..|s| - 1], rank, true), s[|s| - 1], rank, v);
    }
  }

  /** The non-strict insertion sort is not stable: two tied elements swap places. */
  lemma NonStrictSwapsTies<T>(x: T, y: T, rank: T -> nat)
    requires rank(x) == rank(y)
    ensures InsertionSort([x, y], rank, false) == [y, x]
  {
    assert [x, y][..1] == [x];
    assert [x][..0] == [];
    assert InsertionSort([x], rank, false) == [x];
    assert Insert([x], y, rank, false) == Insert([], y, rank, false) + [x];
  }

  /** An input that is already sorted by the strict rule comes back unchanged. */
  lemma {:induction false} InsertionSortSortedInput<T>(s: seq<T>, rank: T -> nat)
    requires SortedBy(s, rank)
    ensures InsertionSort(s, rank, true) == s
    decreases |s|
  {
    if |s| > 0 {
      var t := s[..|s| - 1];
      assert SortedBy(t, rank);
      InsertionSortSortedInput(t, rank);
      if |t| > 0 {
        assert rank(t[|t| - 1]) <= rank(s[|s| - 1]);
      }
      assert t + [s[|s| - 1]] == s;
    }
  }

  // ---------------------------------------------------------------------
  // Uniqueness of the sorted permutation
  // ---------------------------------------------------------------------

  lemma DropLast<T>(a: seq<T>)
    requires |a| > 0
    ensures multiset(a[..|a| - 1]) == multiset(a) - multiset{a[|a| - 1]}
  {
    assert a == a[..|a| - 1] + [a[|a| - 1]];
  }

  /** The last element of a sorted sequence ranks at least every element. */
  lemma LastIsMax<T>(a: seq<T>, rank: T -> nat, k: nat)
    requires SortedBy(a, rank) && k < |a|
    ensures rank(a[k]) <= rank(a[|a| - 1])
  {
  }

  /** Prefixes of sorted sequences are sorted; prefixes keep an injective rank. */
  lemma PrefixFacts<T>(a: seq<T>, rank: T -> nat, m: nat)
    requires m <= |a|
    ensures SortedBy(a, rank) ==> SortedBy(a[..m], rank)
    ensures Injective(a, rank) ==> Injective(a[..m], rank)
  {
    assert forall z :: z in a[..m] ==> z in a;
  }

  /** Sorted permutations of each other under an injective rank end alike. */
  lemma LastEqual<T>(a: seq<T>, b: seq<T>, rank: T -> nat)
    requires multiset(a) == multiset(b) && |a| > 0
    requires SortedBy(a, rank) && SortedBy(b, rank)
    requires Injective(a, rank)
    ensures |a| == |b| && a[|a| - 1] == b[|b| - 1]
  {
    assert |a| == |multiset(a)| == |multiset(b)| == |b|;
    var n := |a|;
    var x, y := a[n - 1], b[n - 1];
    assert x in multiset(b) && y in multiset(a);
    var kb :| 0 <= kb < n && b[kb] == x;
    var ka :| 0 <= ka < n && a[ka] == y;
    LastIsMax(b, rank, kb);
    LastIsMax(a, rank, ka);
  }

  /** The facts `SortedUnique` needs about the two prefixes without their last elements. */
  lemma PrefixStep<T>(a: seq<T>, b: seq<T>, rank: T -> nat)
    requires multiset(a) == multiset(b) && |a| > 0
    requires SortedBy(a, rank) && SortedBy(b, rank)
    requires Injective(a, rank)
    ensures |a| == |b| && a[|a| - 1] == b[|b| - 1]
    ensures multiset(a[..|a| - 1]) == multiset(b[..|b| - 1])
    ensures SortedBy(a[..|a| - 1], rank) && SortedBy(b[..|b| - 1], rank)
    ensures Injective(a[..|a| - 1], rank)
  {
    LastEqual(a, b, rank);
    DropLast(a);
    DropLast(b);
    PrefixFacts(a, rank, |a| - 1);
    PrefixFacts(b, rank, |b| - 1);
  }

  lemma SplitLast<T>(a: seq<T>)
    requires |a| > 0
    ensures a == a[..|a| - 1] + [a[|a| - 1]]
  {
  }

  /**
   * When `rank` tells the elements apart, a multiset has exactly one sorted
   * arrangement: any two sorted permutations of each other are equal.
   */
  lemma {:induction false} SortedUnique<T>(a: seq<T>, b: seq<T>, rank: T -> nat)
    requires multiset(a) == multiset(b)
    requires SortedBy(a, rank) && SortedBy(b, rank)
    requires Injective(a, rank)
    ensures a == b
    decreases |a|
  {
    if |a| == 0 {
      assert |b| == |multiset(b)| == 0;
    } else {
      PrefixStep(a, b, rank);
      SortedUnique(a[..|a| - 1], b[..|b| - 1], rank);
      SplitLast(a);
      SplitLast(b);
    }
  }
}
