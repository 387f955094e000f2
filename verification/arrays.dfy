/** Facts about the array of bar heights that every sorting algorithm of the
    visualiser works on: ordering, bounds, swapping and permutation within a
    range. */
module Arrays {

  /** `s` is in non-decreasing order. */
  predicate Sorted(s: seq<int>) {
    forall i, j :: 0 <= i < j < |s| ==> s[i] <= s[j]
  }

  /** Every element of `s` is at most `v`. */
  predicate AtMost(s: seq<int>, v: int) {
    forall k :: 0 <= k < |s| ==> s[k] <= v
  }

  /** Every element of `s` is at least `v`. */
  predicate AtLeast(s: seq<int>, v: int) {
    forall k :: 0 <= k < |s| ==> v <= s[k]
  }

  /** Every element of `s` is strictly below `v`. */
  predicate Below(s: seq<int>, v: int) {
    forall k :: 0 <= k < |s| ==> s[k] < v
  }

  /** Every element of `a` equals `v`. */
  predicate AllEqual(a: seq<int>, v: int) {
    forall k :: 0 <= k < |a| ==> a[k] == v
  }

  /** Exchanges the elements at `i` and `j`, as the destructuring
      assignment `[array[i], array[j]] = [array[j], array[i]]` does. */
  function Swapped(s: seq<int>, i: nat, j: nat): (r: seq<int>)
    requires i < |s| && j < |s|
    ensures |r| == |s| && r[i] == s[j] && r[j] == s[i]
  {
    s[i := s[j]][j := s[i]]
  }

  /** Swapping rearranges: the values are the same. */
  lemma SwappedPermutes(s: seq<int>, i: nat, j: nat)
    requires i < |s| && j < |s|
    ensures multiset(Swapped(s, i, j)) == multiset(s)
  {
  }

  /** `y` differs from `x` only inside the half-open range [lo, hi), and
      there only by a rearrangement of the same values. */
  predicate Permutes(x: seq<int>, y: seq<int>, lo: int, hi: int) {
    && |x| == |y|
    && 0 <= lo <= hi <= |x|
    && (forall k :: 0 <= k < |x| && !(lo <= k < hi) ==> x[k] == y[k])
    && multiset(x[lo..hi]) == multiset(y[lo..hi])
  }

  /** A rearrangement within a range is a rearrangement of the whole. */
  lemma PermutesWhole(x: seq<int>, y: seq<int>, lo: int, hi: int)
    requires Permutes(x, y, lo, hi)
    ensures multiset(x) == multiset(y)
  {
    assert x[..lo] == y[..lo];
    assert x[hi..] == y[hi..];
    MultisetThirds(x, lo, hi);
    MultisetThirds(y, lo, hi);
  }

  /** A rearrangement of the whole that leaves everything outside [lo, hi)
      in place is a rearrangement within [lo, hi). */
  lemma PermutesFromWhole(x: seq<int>, y: seq<int>, lo: int, hi: int)
    requires |x| == |y| && 0 <= lo <= hi <= |x|
    requires multiset(x) == multiset(y)
    requires forall k :: 0 <= k < |x| && !(lo <= k < hi) ==> x[k] == y[k]
    ensures Permutes(x, y, lo, hi)
  {
    assert x[..lo] == y[..lo];
    assert x[hi..] == y[hi..];
    var outside := multiset(x[..lo]) + multiset(x[hi..]);
    MultisetThirds(x, lo, hi);
    MultisetThirds(y, lo, hi);
    MultisetCancel(multiset(x[lo..hi]), multiset(y[lo..hi]), outside);
  }

  /** The values of `x` are those before, inside and after [lo, hi). */
  lemma MultisetThirds(x: seq<int>, lo: int, hi: int)
    requires 0 <= lo <= hi <= |x|
    ensures multiset(x) == multiset(x[lo..hi]) + (multiset(x[..lo]) + multiset(x[hi..]))
  {
    assert x == x[..lo] + x[lo..hi] + x[hi..];
  }

  lemma MultisetCancel(a: multiset<int>, b: multiset<int>, c: multiset<int>)
    requires a + c == b + c
    ensures a == b
  {
    assert forall e :: a[e] == (a + c)[e] - c[e];
    assert forall e :: b[e] == (b + c)[e] - c[e];
  }

  lemma PermutesRefl(x: seq<int>, lo: int, hi: int)
    requires 0 <= lo <= hi <= |x|
    ensures Permutes(x, x, lo, hi)
  {
  }

  lemma PermutesTrans(x: seq<int>, y: seq<int>, z: seq<int>, lo: int, hi: int)
    requires Permutes(x, y, lo, hi) && Permutes(y, z, lo, hi)
    ensures Permutes(x, z, lo, hi)
  {
  }

  /** A rearrangement within a range is one within any enclosing range. */
  lemma PermutesWiden(x: seq<int>, y: seq<int>, lo: int, hi: int, lo': int, hi': int)
    requires Permutes(x, y, lo, hi)
    requires 0 <= lo' <= lo && hi <= hi' <= |x|
    ensures Permutes(x, y, lo', hi')
  {
    assert x[lo'..hi'] == x[lo'..lo] + x[lo..hi] + x[hi..hi'];
    assert y[lo'..hi'] == y[lo'..lo] + y[lo..hi] + y[hi..hi'];
    assert x[lo'..lo] == y[lo'..lo];
    assert x[hi..hi'] == y[hi..hi'];
  }

  /** Two rearrangements within ranges inside [lo, hi), one after the
      other, rearrange [lo, hi). */
  lemma PermutesCompose(x: seq<int>, y: seq<int>, z: seq<int>, lo1: int, hi1: int, lo2: int, hi2: int, lo: int, hi: int)
    requires Permutes(x, y, lo1, hi1) && Permutes(y, z, lo2, hi2)
    requires 0 <= lo <= lo1 && hi1 <= hi && lo <= lo2 && hi2 <= hi && hi <= |x|
    ensures Permutes(x, z, lo, hi)
  {
    PermutesWhole(x, y, lo1, hi1);
    PermutesWhole(y, z, lo2, hi2);
    PermutesFromWhole(x, z, lo, hi);
  }

  /** A rearrangement within [lo, hi) leaves every slice outside it as it
      was. */
  lemma PermutesFrame(x: seq<int>, y: seq<int>, lo: int, hi: int, lo': int, hi': int)
    requires Permutes(x, y, lo, hi) && 0 <= lo' <= hi' <= |x| && (hi' <= lo || hi <= lo')
    ensures x[lo'..hi'] == y[lo'..hi']
  {
  }

  lemma SliceSplit(a: seq<int>, lo: int, m: int, hi: int)
    requires 0 <= lo <= m <= hi <= |a|
    ensures a[lo..hi] == a[lo..m] + a[m..hi]
  {
  }

  /** Overwriting [lo, hi) with a rearrangement `m` of its values
      rearranges [lo, hi). */
  lemma SplicePermutes(a: seq<int>, f: seq<int>, lo: int, hi: int, m: seq<int>)
    requires 0 <= lo <= hi <= |a| && |m| == hi - lo
    requires f == a[..lo] + m + a[hi..]
    requires multiset(m) == multiset(a[lo..hi])
    ensures f[lo..hi] == m && Permutes(a, f, lo, hi)
  {
    forall k | 0 <= k < |a| && !(lo <= k < hi)
      ensures a[k] == f[k]
    {
      if k < lo {
        assert f[k] == a[..lo][k];
      } else {
        assert f[k] == a[hi..][k - hi];
      }
    }
    assert f[lo..hi] == m;
  }

  /** Exchanging two positions inside [lo, hi) rearranges [lo, hi). */
  lemma SwapPermutes(s: seq<int>, i: nat, j: nat, lo: int, hi: int)
    requires 0 <= lo <= i < hi <= |s| && lo <= j < hi
    ensures Permutes(s, Swapped(s, i, j), lo, hi)
  {
    SwappedPermutes(s, i, j);
    PermutesFromWhole(s, Swapped(s, i, j), lo, hi);
  }

  /** Bounds on all elements survive any rearrangement. */
  lemma BoundsSurvive(x: seq<int>, y: seq<int>, v: int)
    requires multiset(x) == multiset(y)
    ensures AtMost(x, v) ==> AtMost(y, v)
    ensures AtLeast(x, v) ==> AtLeast(y, v)
    ensures Below(x, v) ==> Below(y, v)
  {
    forall k | 0 <= k < |y|
      ensures exists p :: 0 <= p < |x| && x[p] == y[k]
    {
      assert y[k] in multiset(y);
      assert y[k] in multiset(x);
      assert y[k] in x;
    }
  }

  /** Two sorted arrangements of the same values are the same array: the
      sorted result of every algorithm is uniquely determined by its input's
      values. */
  lemma {:induction false} SortedUnique(x: seq<int>, y: seq<int>)
    requires Sorted(x) && Sorted(y)
    requires multiset(x) == multiset(y)
    ensures x == y
  {
    if |x| == 0 {
      assert |multiset(y)| == 0;
    } else {
      SortedHeads(x, y);
      TailsAgree(x, y);
      SortedUnique(x[1..], y[1..]);
      assert x == [x[0]] + x[1..];
      assert y == [y[0]] + y[1..];
    }
  }

  /** Two sorted arrangements of the same values start with the same,
      smallest, value. */
  lemma SortedHeads(x: seq<int>, y: seq<int>)
    requires Sorted(x) && Sorted(y) && |x| > 0
    requires multiset(x) == multiset(y)
    ensures |y| == |x| && x[0] == y[0]
  {
    assert |y| == |multiset(y)| == |multiset(x)| == |x|;
    assert x[0] in multiset(y);
    assert y[0] in multiset(x);
    assert x[0] <= y[0] by {
      assert y[0] in x;
    }
    assert y[0] <= x[0] by {
      assert x[0] in y;
    }
  }

  /** With the heads equal, the tails are sorted arrangements of the same
      values. */
  lemma TailsAgree(x: seq<int>, y: seq<int>)
    requires Sorted(x) && Sorted(y) && |x| > 0 && |y| == |x| && x[0] == y[0]
    requires multiset(x) == multiset(y)
    ensures Sorted(x[1..]) && Sorted(y[1..]) && multiset(x[1..]) == multiset(y[1..])
  {
    assert x == [x[0]] + x[1..];
    assert y == [y[0]] + y[1..];
    assert multiset(x) == multiset(x[1..]) + multiset{x[0]};
    assert multiset(y) == multiset(y[1..]) + multiset{x[0]};
    MultisetCancel(multiset(x[1..]), multiset(y[1..]), multiset{x[0]});
  }

  /** Positions `m..` hold their final values: they are sorted and no
      element before `m` exceeds any element from `m` on. Bubble sort and
      heap sort grow this suffix by one position per outer pass. */
  predicate SuffixPlaced(a: seq<int>, m: int) {
    && 0 <= m <= |a|
    && (forall i, j :: m <= i < j < |a| ==> a[i] <= a[j])
    && (forall i, j :: 0 <= i < m <= j < |a| ==> a[i] <= a[j])
  }

  /** Positions `..m` hold their final values: they are sorted and no
      element from `m` on is below any element before `m`. Selection sort
      grows this prefix by one position per outer pass. */
  predicate PrefixPlaced(a: seq<int>, m: int) {
    && 0 <= m <= |a|
    && (forall i, j :: 0 <= i < j < m ==> a[i] <= a[j])
    && (forall i, j :: 0 <= i < m <= j < |a| ==> a[i] <= a[j])
  }

  lemma SuffixPlacedSorted(a: seq<int>, m: int)
    requires SuffixPlaced(a, m) && m <= 1
    ensures Sorted(a)
  {
  }

  lemma PrefixPlacedSorted(a: seq<int>, m: int)
    requires PrefixPlaced(a, m) && m >= |a| - 1
    ensures Sorted(a)
  {
  }
}
