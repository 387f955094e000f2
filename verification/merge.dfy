/** Merge sort as the visualiser's generators run it: `mergeSort(left,
    right)` sorts the two halves around `mid = floor((left + right) / 2)`
    recursively and then `merge(left, mid, right)` copies the two runs out,
    writes them back in order and announces every write as an insert. */
module MergeSort {
  import opened Arrays
  import opened Traces

  /** The ordered merge of `xs` and `ys`; on a tie the element of `xs`
      comes first (`merge` tests `L[i] <= R[j]`). */
  function Merged(xs: seq<int>, ys: seq<int>): seq<int>
    decreases |xs| + |ys|
  {
    if |xs| == 0 then ys
    else if |ys| == 0 then xs
    else if xs[0] <= ys[0] then [xs[0]] + Merged(xs[1..], ys)
    else [ys[0]] + Merged(xs, ys[1..])
  }

  /** The state of `merge`'s loops: `i` elements taken from the copy `L` of
      `left .. mid`, `j` from the copy `R` of `mid+1 .. right`, the next
      write going to `k = left + i + j`. */
  predicate Within(a: seq<int>, left: nat, mid: nat, L: seq<int>, R: seq<int>, i: nat, j: nat) {
    i <= |L| && j <= |R| && mid + 1 == left + |L| && left + |L| + |R| <= |a|
  }

  /** The events of one loop iteration, the array after it and the new
      counters. */
  datatype Took = Took(steps: seq<Step>, after: seq<int>, i: nat, j: nat)

  /** One iteration of one of `merge`'s three loops. While both runs have
      elements: yield `compare [left+i, mid+1+j]`, write the smaller head
      (the left one on a tie) to `k`, yield `insert [k]`. Once one run is
      used up: write the other's next element and yield `insert [k]`. */
  function Take(a: seq<int>, left: nat, mid: nat, L: seq<int>, R: seq<int>, i: nat, j: nat): (t: Took)
    requires Within(a, left, mid, L, R, i, j) && (i < |L| || j < |R|)
    ensures t.i + t.j == i + j + 1 && t.i <= |L| && t.j <= |R|
    ensures |t.after| == |a|
  {
    var k := left + i + j;
    if i < |L| && j < |R| then
      var c := CompareStep(left + i, mid + 1 + j, a);
      if L[i] <= R[j] then
        var b := a[k := L[i]];
        Took([c, InsertStep(k, b)], b, i + 1, j)
      else
        var b := a[k := R[j]];
        Took([c, InsertStep(k, b)], b, i, j + 1)
    else if i < |L| then
      var b := a[k := L[i]];
      Took([InsertStep(k, b)], b, i + 1, j)
    else
      var b := a[k := R[j]];
      Took([InsertStep(k, b)], b, i, j + 1)
  }

  /** `merge`'s main loop followed by its two draining loops, from counters
      `i`, `j` on. After the main loop one of the runs is used up, so at
      most one of the draining loops runs, as here. */
  function MergeFrom(a: seq<int>, left: nat, mid: nat, L: seq<int>, R: seq<int>, i: nat, j: nat): (r: Run)
    requires Within(a, left, mid, L, R, i, j)
    ensures |r.final| == |a|
    decreases |L| - i + |R| - j
  {
    if i < |L| || j < |R| then
      var t := Take(a, left, mid, L, R, i, j);
      Then(Run(t.steps, t.after), MergeFrom(t.after, left, mid, L, R, t.i, t.j))
    else
      Run([], a)
  }

  /** `merge(left, mid, right)`: `L = array.slice(left, mid + 1)`,
      `R = array.slice(mid + 1, right + 1)`, then the loops. */
  function Merge(a: seq<int>, left: nat, mid: nat, right: nat): (r: Run)
    requires left <= mid <= right < |a|
    ensures |r.final| == |a|
  {
    MergeFrom(a, left, mid, a[left..mid + 1], a[mid + 1..right + 1], 0, 0)
  }

  /** `Math.floor((left + right) / 2)`. */
  function Mid(left: nat, right: nat): (m: nat)
    requires left < right
    ensures left <= m < right
  {
    (left + right) / 2
  }

  /** `mid + 1`: where the upper half starts. */
  function Upper(left: nat, right: nat): (u: nat)
    requires left < right
    ensures u == Mid(left, right) + 1 && u <= right
  {
    Mid(left, right) + 1
  }

  /** `mergeSort(left, right)`: when `left < right`, sort `left .. mid`,
      then `mid+1 .. right`, then merge the two. */
  function SortRange(a: seq<int>, left: nat, right: int): (r: Run)
    requires left <= right + 1 <= |a|
    ensures |r.final| == |a|
    decreases right - left
  {
    if left < right then
      var mid := Mid(left, right);
      var r1 := SortRange(a, left, mid);
      var r2 := SortRange(r1.final, Upper(left, right), right);
      Then(r1, Then(r2, Merge(r2.final, left, mid, right)))
    else
      Run([], a)
  }

  /** The `mergeSort` generator drained to exhaustion, called with its
      default arguments `left = 0`, `right = array.length - 1`. */
  function Sort(a: seq<int>): (r: Run)
    ensures |r.final| == |a|
  {
    SortRange(a, 0, |a| - 1)
  }

  // ---------------------------------------------------------------------
  // The reference merge

  lemma {:induction false} MergedPermutes(xs: seq<int>, ys: seq<int>)
    ensures |Merged(xs, ys)| == |xs| + |ys|
    ensures multiset(Merged(xs, ys)) == multiset(xs) + multiset(ys)
    decreases |xs| + |ys|
  {
    if |xs| > 0 && |ys| > 0 {
      if xs[0] <= ys[0] {
        var tl := xs[1..];
        MergedPermutes(tl, ys);
        ConsPermutes(xs[0], tl, xs, ys, Merged(tl, ys), Merged(xs, ys));
      } else {
        var tl := ys[1..];
        MergedPermutes(xs, tl);
        ConsPermutes(ys[0], tl, ys, xs, Merged(xs, tl), Merged(xs, ys));
      }
    }
  }

  /** Putting the head `x` of `s = [x] + tl` in front of a merge `m` of
      `tl` and `o` gives a merge of `s` and `o`, counted by length and by
      occurrences. */
  lemma ConsPermutes(x: int, tl: seq<int>, s: seq<int>, o: seq<int>, m: seq<int>, r: seq<int>)
    requires s == [x] + tl && r == [x] + m
    requires |m| == |tl| + |o| && multiset(m) == multiset(tl) + multiset(o)
    ensures |r| == |s| + |o| && multiset(r) == multiset(s) + multiset(o)
  {
  }

  /** `x` followed by a sorted sequence of elements no smaller than `x` is
      sorted. */
  lemma SortedCons(x: int, s: seq<int>)
    requires Sorted(s) && AtLeast(s, x)
    ensures Sorted([x] + s)
  {
    var t := [x] + s;
    forall p, q | 0 <= p < q < |t|
      ensures t[p] <= t[q]
    {
      assert t[q] == s[q - 1];
      if p > 0 {
        assert t[p] == s[p - 1];
      }
    }
  }

  lemma SortedTail(s: seq<int>)
    requires Sorted(s) && |s| > 0
    ensures Sorted(s[1..]) && AtLeast(s[1..], s[0])
  {
  }

  /** Merging two sorted runs gives a sorted run. */
  lemma {:induction false} MergedSorted(xs: seq<int>, ys: seq<int>)
    requires Sorted(xs) && Sorted(ys)
    ensures Sorted(Merged(xs, ys))
    decreases |xs| + |ys|
  {
    if |xs| > 0 && |ys| > 0 {
      if xs[0] <= ys[0] {
        var m := Merged(xs[1..], ys);
        SortedTail(xs);
        MergedSorted(xs[1..], ys);
        MergedPermutes(xs[1..], ys);
        assert AtLeast(xs[1..] + ys, xs[0]);
        assert multiset(xs[1..] + ys) == multiset(m);
        BoundsSurvive(xs[1..] + ys, m, xs[0]);
        SortedCons(xs[0], m);
      } else {
        var m := Merged(xs, ys[1..]);
        SortedTail(ys);
        MergedSorted(xs, ys[1..]);
        MergedPermutes(xs, ys[1..]);
        assert AtLeast(xs + ys[1..], ys[0]);
        assert multiset(xs + ys[1..]) == multiset(m);
        BoundsSurvive(xs + ys[1..], m, ys[0]);
        SortedCons(ys[0], m);
      }
    }
  }

  /** Runs that are already in order, every element of `xs` at most every
      element of `ys`, merge to their concatenation. */
  lemma {:induction false} MergedOrdered(xs: seq<int>, ys: seq<int>)
    requires forall p, q :: 0 <= p < |xs| && 0 <= q < |ys| ==> xs[p] <= ys[q]
    ensures Merged(xs, ys) == xs + ys
    decreases |xs|
  {
    if |xs| > 0 && |ys| > 0 {
      MergedOrdered(xs[1..], ys);
      assert xs == [xs[0]] + xs[1..];
    } else if |ys| == 0 {
      assert xs + ys == xs;
    }
  }

  // ---------------------------------------------------------------------
  // The loops

  /** One iteration writes the next element of the reference merge at `k`. */
  lemma TakeWritesNext(a: seq<int>, left: nat, mid: nat, L: seq<int>, R: seq<int>, i: nat, j: nat, k: nat)
    requires Within(a, left, mid, L, R, i, j) && (i < |L| || j < |R|) && k == left + i + j
    ensures var t := Take(a, left, mid, L, R, i, j);
      && Merged(L[i..], R[j..]) == [t.after[k]] + Merged(L[t.i..], R[t.j..])
      && t.after == a[k := t.after[k]]
  {
    var t := Take(a, left, mid, L, R, i, j);
    if i < |L| && j < |R| {
      if L[i] <= R[j] {
        assert L[i..][1..] == L[i + 1..];
      } else {
        assert R[j..][1..] == R[j + 1..];
      }
    } else if i < |L| {
      assert R[j..] == [];
      assert L[i..] == [L[i]] + L[i + 1..];
    } else {
      assert L[i..] == [];
      assert R[j..] == [R[j]] + R[j + 1..];
    }
  }

  /** Writing `b[k]` at `k` and then the rest `M'` of a merge from `k + 1`
      on writes the whole merge `M` from `k` on. */
  lemma SpliceStep(a: seq<int>, b: seq<int>, k: nat, k': nat, e: nat, M: seq<int>, M': seq<int>, f: seq<int>)
    requires k < e <= |a| && k' == k + 1 && |b| == |a| && b == a[k := b[k]]
    requires M == [b[k]] + M'
    requires f == b[..k'] + M' + b[e..]
    ensures f == a[..k] + M + a[e..]
  {
    assert b[..k'] == a[..k] + [b[k]];
    assert b[e..] == a[e..];
  }

  /** One iteration of the loops, then the loops from the new counters. */
  lemma MergeFromUnfold(a: seq<int>, left: nat, mid: nat, L: seq<int>, R: seq<int>, i: nat, j: nat)
    requires Within(a, left, mid, L, R, i, j) && (i < |L| || j < |R|)
    ensures var t := Take(a, left, mid, L, R, i, j);
      var rest := MergeFrom(t.after, left, mid, L, R, t.i, t.j);
      MergeFrom(a, left, mid, L, R, i, j) == Run(t.steps + rest.steps, rest.final)
  {
  }

  /** From counters `i`, `j` on, the loops fill `k = left + i + j ..`
      with the reference merge of what is left of the two runs, and change
      nothing else. */
  lemma {:induction false} MergeFromWrites(a: seq<int>, left: nat, mid: nat, L: seq<int>, R: seq<int>, i: nat, j: nat, k: nat, e: nat)
    requires Within(a, left, mid, L, R, i, j) && k == left + i + j && e == left + |L| + |R|
    ensures MergeFrom(a, left, mid, L, R, i, j).final == a[..k] + Merged(L[i..], R[j..]) + a[e..]
    decreases |L| - i + |R| - j
  {
    if i < |L| || j < |R| {
      var t := Take(a, left, mid, L, R, i, j);
      var f := MergeFrom(t.after, left, mid, L, R, t.i, t.j).final;
      var k' := k + 1;
      MergeFromUnfold(a, left, mid, L, R, i, j);
      TakeWritesNext(a, left, mid, L, R, i, j, k);
      MergeFromWrites(t.after, left, mid, L, R, t.i, t.j, k', e);
      SpliceStep(a, t.after, k, k', e, Merged(L[i..], R[j..]), Merged(L[t.i..], R[t.j..]), f);
    } else {
      assert L[i..] == [] && R[j..] == [];
      assert a == a[..k] + a[e..];
    }
  }

  /** The loops write the `n` positions `k = left + i + j, k + 1, ..` in
      that order, each announced by one insert. */
  lemma {:induction false} MergeFromInserts(a: seq<int>, left: nat, mid: nat, L: seq<int>, R: seq<int>, i: nat, j: nat, k: nat, n: nat)
    requires Within(a, left, mid, L, R, i, j) && k == left + i + j && n == |L| - i + |R| - j
    ensures Consecutive(InsertPositions(MergeFrom(a, left, mid, L, R, i, j).steps), k, n)
    decreases n
  {
    if i < |L| || j < |R| {
      var t := Take(a, left, mid, L, R, i, j);
      var rest := MergeFrom(t.after, left, mid, L, R, t.i, t.j).steps;
      MergeFromUnfold(a, left, mid, L, R, i, j);
      TakeInsertsOnce(a, left, mid, L, R, i, j, k);
      var k', n' := k + 1, n - 1;
      MergeFromInserts(t.after, left, mid, L, R, t.i, t.j, k', n');
      InsertsStep(t.steps, rest, MergeFrom(a, left, mid, L, R, i, j).steps, k, k', n, n');
    }
  }

  /** `s` lists the `n` positions `lo, lo + 1, .., lo + n - 1` in order. */
  predicate Consecutive(s: seq<nat>, lo: nat, n: nat) {
    |s| == n && forall p :: 0 <= p < n ==> s[p] == lo + p
  }

  /** An insert at `k` followed by inserts at `k + 1, ..` is a run of
      inserts at `k, k + 1, ..`. */
  lemma InsertsStep(s1: seq<Step>, s2: seq<Step>, whole: seq<Step>, k: nat, k': nat, n: nat, n': nat)
    requires whole == s1 + s2 && k' == k + 1 && n == n' + 1
    requires InsertPositions(s1) == [k] && Consecutive(InsertPositions(s2), k', n')
    ensures Consecutive(InsertPositions(whole), k, n)
  {
    InsertPositionsAppend(s1, s2);
    var s := InsertPositions(whole);
    assert s == [k] + InsertPositions(s2);
    forall p | 0 <= p < n
      ensures s[p] == k + p
    {
      if p > 0 {
        assert s[p] == InsertPositions(s2)[p - 1];
      }
    }
  }


  /** Each event of the loops shows the array with just the announced
      position changed, and the last one shows the array they leave. */
  lemma {:induction false} MergeFromFaithful(a: seq<int>, left: nat, mid: nat, L: seq<int>, R: seq<int>, i: nat, j: nat)
    requires Within(a, left, mid, L, R, i, j)
    ensures Faithful(a, MergeFrom(a, left, mid, L, R, i, j).steps)
    ensures FinalShown(a, MergeFrom(a, left, mid, L, R, i, j))
    decreases |L| - i + |R| - j
  {
    if i < |L| || j < |R| {
      var t := Take(a, left, mid, L, R, i, j);
      var rest := MergeFrom(t.after, left, mid, L, R, t.i, t.j);
      TakeAnnounces(a, left, mid, L, R, i, j);
      MergeFromFaithful(t.after, left, mid, L, R, t.i, t.j);
      FaithfulAppend(a, t.steps, rest.steps);
      FinalShownThen(a, Run(t.steps, t.after), rest);
    }
  }

  /** One iteration inserts once, at `k`. */
  lemma TakeInsertsOnce(a: seq<int>, left: nat, mid: nat, L: seq<int>, R: seq<int>, i: nat, j: nat, k: nat)
    requires Within(a, left, mid, L, R, i, j) && (i < |L| || j < |R|) && k == left + i + j
    ensures InsertPositions(Take(a, left, mid, L, R, i, j).steps) == [k]
  {
    var t := Take(a, left, mid, L, R, i, j);
    var w := t.steps[|t.steps| - 1];
    assert InsertPositions([w]) == [k] by {
      assert [w][1..] == [];
    }
    if |t.steps| == 2 {
      assert t.steps[1..] == [w];
    }
  }

  /** Each event of one iteration announces its change, and the last shows
      the array after the iteration. */
  lemma TakeAnnounces(a: seq<int>, left: nat, mid: nat, L: seq<int>, R: seq<int>, i: nat, j: nat)
    requires Within(a, left, mid, L, R, i, j) && (i < |L| || j < |R|)
    ensures Faithful(a, Take(a, left, mid, L, R, i, j).steps)
    ensures Last(a, Take(a, left, mid, L, R, i, j).steps) == Take(a, left, mid, L, R, i, j).after
  {
    var t := Take(a, left, mid, L, R, i, j);
    var w := t.steps[|t.steps| - 1];
    var k := left + i + j;
    assert w == InsertStep(k, t.after);
    assert Announces(a, w) by {
      forall p | 0 <= p < |a| && p != k
        ensures t.after[p] == a[p]
      {
      }
    }
    if |t.steps| == 2 {
      FaithfulPrepend(a, w, []);
      assert [w] + [] == [w];
      FaithfulPrepend(a, t.steps[0], [w]);
      assert t.steps == [t.steps[0]] + [w];
    } else {
      FaithfulPrepend(a, w, []);
      assert t.steps == [w] + [];
    }
  }

  /** `merge(left, mid, right)` leaves the reference merge of the two runs
      in `left .. right` and everything else as it was. */
  lemma MergeWrites(a: seq<int>, left: nat, mid: nat, right: nat)
    requires left <= mid <= right < |a|
    ensures Merge(a, left, mid, right).final
      == a[..left] + Merged(a[left..mid + 1], a[mid + 1..right + 1]) + a[right + 1..]
  {
    MergeFromWrites(a, left, mid, a[left..mid + 1], a[mid + 1..right + 1], 0, 0, left, right + 1);
  }

  /** `merge(left, mid, right)` yields exactly `right - left + 1` inserts,
      at `left, left + 1, .., right` in that order. */
  lemma MergeInserts(a: seq<int>, left: nat, mid: nat, right: nat)
    requires left <= mid <= right < |a|
    ensures Consecutive(InsertPositions(Merge(a, left, mid, right).steps), left, right - left + 1)
    ensures Faithful(a, Merge(a, left, mid, right).steps)
    ensures FinalShown(a, Merge(a, left, mid, right))
  {
    var xs, ys := a[left..mid + 1], a[mid + 1..right + 1];
    assert Merge(a, left, mid, right) == MergeFrom(a, left, mid, xs, ys, 0, 0);
    MergeFromInserts(a, left, mid, xs, ys, 0, 0, left, right - left + 1);
    MergeFromFaithful(a, left, mid, xs, ys, 0, 0);
  }


  /** `merge` rearranges only `left .. right`, and leaves that range sorted
      when both runs were sorted. */
  lemma MergeSorts(a: seq<int>, left: nat, mid: nat, right: nat)
    requires left <= mid <= right < |a|
    ensures Permutes(a, Merge(a, left, mid, right).final, left, right + 1)
    ensures Sorted(a[left..mid + 1]) && Sorted(a[mid + 1..right + 1]) ==>
      Sorted(Merge(a, left, mid, right).final[left..right + 1])
  {
    MergeWrites(a, left, mid, right);
    SpliceMergedSorts(a, Merge(a, left, mid, right).final, left, mid, right);
  }

  /** Overwriting `left .. right` with the reference merge of its two
      halves rearranges it, and sorts it when both halves were sorted. */
  lemma SpliceMergedSorts(a: seq<int>, f: seq<int>, left: nat, mid: nat, right: nat)
    requires left <= mid <= right < |a|
    requires f == a[..left] + Merged(a[left..mid + 1], a[mid + 1..right + 1]) + a[right + 1..]
    ensures Permutes(a, f, left, right + 1)
    ensures Sorted(a[left..mid + 1]) && Sorted(a[mid + 1..right + 1]) ==> Sorted(f[left..right + 1])
  {
    var xs, ys := a[left..mid + 1], a[mid + 1..right + 1];
    MergedPermutes(xs, ys);
    SliceSplit(a, left, mid + 1, right + 1);
    SplicePermutes(a, f, left, right + 1, Merged(xs, ys));
    if Sorted(xs) && Sorted(ys) {
      MergedSorted(xs, ys);
    }
  }

  /** Runs already in order are left as they are: every comparison takes
      from the left run, and the right run is then drained. */
  lemma {:induction false} MergeFromOrdered(a: seq<int>, left: nat, mid: nat, L: seq<int>, R: seq<int>, i: nat, j: nat)
    requires Within(a, left, mid, L, R, i, j) && 0 < |R| && j == 0
    requires forall p, q :: 0 <= p < |L| && 0 <= q < |R| ==> L[p] <= R[q]
    ensures Count(MergeFrom(a, left, mid, L, R, i, j).steps, Compare) == |L| - i
    decreases |L| - i + |R| - j
  {
    if i < |L| {
      var t := Take(a, left, mid, L, R, i, j);
      var rest := MergeFrom(t.after, left, mid, L, R, t.i, t.j).steps;
      MergeFromOrdered(t.after, left, mid, L, R, t.i, t.j);
      CountAppend(t.steps, rest, Compare);
      CountPrepend(t.steps[0], [t.steps[1]], Compare);
      CountPrepend(t.steps[1], [], Compare);
      assert t.steps == [t.steps[0]] + [t.steps[1]];
    } else {
      DrainNoCompares(a, left, mid, L, R, i, j);
    }
  }

  /** Once the left run is used up, the loops only insert. */
  lemma {:induction false} DrainNoCompares(a: seq<int>, left: nat, mid: nat, L: seq<int>, R: seq<int>, i: nat, j: nat)
    requires Within(a, left, mid, L, R, i, j) && i == |L|
    ensures Count(MergeFrom(a, left, mid, L, R, i, j).steps, Compare) == 0
    decreases |R| - j
  {
    if j < |R| {
      var t := Take(a, left, mid, L, R, i, j);
      var rest := MergeFrom(t.after, left, mid, L, R, t.i, t.j).steps;
      DrainNoCompares(t.after, left, mid, L, R, t.i, t.j);
      CountAppend(t.steps, rest, Compare);
      CountPrepend(t.steps[0], [], Compare);
      assert t.steps == [t.steps[0]] + [];
    }
  }

  /** Merging two runs that are already in order changes nothing and costs
      one comparison per element of the left run (ties go left). */
  lemma MergeOrdered(a: seq<int>, left: nat, mid: nat, right: nat)
    requires left <= mid < right < |a|
    requires forall p, q :: left <= p <= mid < q <= right ==> a[p] <= a[q]
    ensures Merge(a, left, mid, right).final == a
    ensures Count(Merge(a, left, mid, right).steps, Compare) == mid + 1 - left
  {
    var xs, ys := a[left..mid + 1], a[mid + 1..right + 1];
    MergeWrites(a, left, mid, right);
    MergedOrdered(xs, ys);
    assert a == a[..left] + (xs + ys) + a[right + 1..];
    MergeFromOrdered(a, left, mid, xs, ys, 0, 0);
  }

  // ---------------------------------------------------------------------
  // The recursion

  /** Rearranging `left .. mid`, then `mid+1 .. right`, then
      `left .. right` rearranges `left .. right`. */
  lemma PermutesThree(a: seq<int>, b: seq<int>, c: seq<int>, d: seq<int>, left: nat, mid: nat, right: nat)
    requires left <= mid < right < |a|
    requires Permutes(a, b, left, mid + 1) && Permutes(b, c, mid + 1, right + 1)
    requires Permutes(c, d, left, right + 1)
    ensures Permutes(a, d, left, right + 1)
  {
    PermutesCompose(a, b, c, left, mid + 1, mid + 1, right + 1, left, right + 1);
    PermutesTrans(a, c, d, left, right + 1);
  }

  /** One level of the recursion: the lower half `left .. mid` sorted,
      then the upper half `next .. right`, then the merge, give a sorted
      rearrangement of `left .. right`. */
  lemma SortStep(a: seq<int>, b: seq<int>, c: seq<int>, left: nat, mid: nat, next: nat, right: nat)
    requires left <= mid < right < |a| && next == mid + 1
    requires Permutes(a, b, left, mid + 1) && Sorted(b[left..mid + 1])
    requires Permutes(b, c, next, right + 1) && Sorted(c[next..right + 1])
    ensures Permutes(a, Merge(c, left, mid, right).final, left, right + 1)
    ensures Sorted(Merge(c, left, mid, right).final[left..right + 1])
  {
    PermutesFrame(b, c, mid + 1, right + 1, left, mid + 1);
    MergeSorts(c, left, mid, right);
    PermutesThree(a, b, c, Merge(c, left, mid, right).final, left, mid, right);
  }

  /** `mergeSort(left, right)` sorts `left .. right`, rearranging nothing
      outside it. */
  lemma {:induction false} SortRangeSorts(a: seq<int>, left: nat, right: int)
    requires left <= right + 1 <= |a|
    ensures Permutes(a, SortRange(a, left, right).final, left, right + 1)
    ensures Sorted(SortRange(a, left, right).final[left..right + 1])
    decreases right - left
  {
    if left < right {
      var mid := Mid(left, right);
      var r1 := SortRange(a, left, mid);
      var b, next := r1.final, Upper(left, right);
      var r2 := SortRange(b, next, right);
      var f := Merge(r2.final, left, mid, right).final;
      SortRangeSorts(a, left, mid);
      SortRangeSorts(b, next, right);
      SortRangeUnfold(a, left, right, mid, b, next);
      SortStep(a, b, r2.final, left, mid, next, right);
    } else {
      PermutesRefl(a, left, right + 1);
    }
  }

  /** One level of `mergeSort(left, right)` in terms of the midpoint
      `mid`, the array `b` the first recursive call leaves and the start
      `next` of the second half. */
  lemma SortRangeUnfold(a: seq<int>, left: nat, right: nat, mid: nat, b: seq<int>, next: nat)
    requires left < right < |a| && mid == Mid(left, right) && next == Upper(left, right)
    requires b == SortRange(a, left, mid).final
    ensures var r2 := SortRange(b, next, right);
      SortRange(a, left, right) == Then(SortRange(a, left, mid), Then(r2, Merge(r2.final, left, mid, right)))
  {
  }

  /** Every event of `mergeSort(left, right)` announces its change, and
      the run ends on the array its last event showed. */
  lemma {:induction false} SortRangeFaithful(a: seq<int>, left: nat, right: int)
    requires left <= right + 1 <= |a|
    ensures Faithful(a, SortRange(a, left, right).steps)
    ensures FinalShown(a, SortRange(a, left, right))
    decreases right - left
  {
    if left < right {
      var mid := Mid(left, right);
      var r1 := SortRange(a, left, mid);
      var b, next := r1.final, Upper(left, right);
      var r2 := SortRange(b, next, right);
      var r3 := Merge(r2.final, left, mid, right);
      SortRangeFaithful(a, left, mid);
      SortRangeFaithful(b, next, right);
      SortRangeUnfold(a, left, right, mid, b, next);
      MergeInserts(r2.final, left, mid, right);
      FaithfulThen(b, r2, r3);
      FaithfulThen(a, r1, Then(r2, r3));
    }
  }

  /** Every position `mergeSort(left, right)` names lies in
      `left .. right`. */
  predicate InRange(steps: seq<Step>, left: int, right: int) {
    forall k, p :: 0 <= k < |steps| && 0 <= p < |steps[k].event.indices| ==>
      left <= steps[k].event.indices[p] <= right
  }

  lemma InRangeAppend(s1: seq<Step>, s2: seq<Step>, left: int, right: int)
    requires InRange(s1, left, right) && InRange(s2, left, right)
    ensures InRange(s1 + s2, left, right)
  {
    var s := s1 + s2;
    forall k | 0 <= k < |s|
      ensures s[k] == if k < |s1| then s1[k] else s2[k - |s1|]
    {
    }
  }

  lemma InRangeWiden(s: seq<Step>, left: int, right: int, left': int, right': int)
    requires InRange(s, left, right) && left' <= left && right <= right'
    ensures InRange(s, left', right')
  {
  }

  lemma TakeInRange(a: seq<int>, left: nat, mid: nat, L: seq<int>, R: seq<int>, i: nat, j: nat)
    requires Within(a, left, mid, L, R, i, j) && (i < |L| || j < |R|)
    ensures InRange(Take(a, left, mid, L, R, i, j).steps, left, left + |L| + |R| - 1)
  {
  }

  lemma {:induction false} MergeFromInRange(a: seq<int>, left: nat, mid: nat, L: seq<int>, R: seq<int>, i: nat, j: nat)
    requires Within(a, left, mid, L, R, i, j)
    ensures InRange(MergeFrom(a, left, mid, L, R, i, j).steps, left, left + |L| + |R| - 1)
    decreases |L| - i + |R| - j
  {
    if i < |L| || j < |R| {
      var t := Take(a, left, mid, L, R, i, j);
      TakeInRange(a, left, mid, L, R, i, j);
      MergeFromInRange(t.after, left, mid, L, R, t.i, t.j);
      InRangeAppend(t.steps, MergeFrom(t.after, left, mid, L, R, t.i, t.j).steps, left, left + |L| + |R| - 1);
    }
  }

  /** `mergeSort(left, right)` names no position outside `left .. right`. */
  lemma {:induction false} SortRangeInRange(a: seq<int>, left: nat, right: int)
    requires left <= right + 1 <= |a|
    ensures InRange(SortRange(a, left, right).steps, left, right)
    decreases right - left
  {
    if left < right {
      var mid := Mid(left, right);
      var r1 := SortRange(a, left, mid);
      var b, next := r1.final, Upper(left, right);
      var r2 := SortRange(b, next, right);
      var r3 := Merge(r2.final, left, mid, right);
      SortRangeInRange(a, left, mid);
      SortRangeInRange(b, next, right);
      SortRangeUnfold(a, left, right, mid, b, next);
      MergeInRange(r2.final, left, mid, right);
      InRangeWiden(r1.steps, left, mid, left, right);
      InRangeWiden(r2.steps, next, right, left, right);
      InRangeAppend(r2.steps, r3.steps, left, right);
      InRangeAppend(r1.steps, r2.steps + r3.steps, left, right);
    }
  }

  /** The events of `mergeSort(left, right)` come in three blocks: first
      some naming only `left .. mid`, then some naming only `mid+1 ..
      right`, and last exactly `right - left + 1` inserts writing `left`,
      `left + 1`, .., `right` in turn. */
  lemma SortRangeBlocks(a: seq<int>, left: nat, right: nat)
    requires left < right < |a|
    ensures var r := SortRange(a, left, right).steps;
      exists n1, n2 :: 0 <= n1 <= n2 <= |r|
        && InRange(r[..n1], left, Mid(left, right))
        && InRange(r[n1..n2], Mid(left, right) + 1, right)
        && Consecutive(InsertPositions(r[n2..]), left, right - left + 1)
  {
    var mid := Mid(left, right);
    var r1 := SortRange(a, left, mid);
    var b, next := r1.final, Upper(left, right);
    var r2 := SortRange(b, next, right);
    var r3 := Merge(r2.final, left, mid, right);
    SortRangeUnfold(a, left, right, mid, b, next);
    SortRangeInRange(a, left, mid);
    SortRangeInRange(b, next, right);
    MergeInserts(r2.final, left, mid, right);
    var r := SortRange(a, left, right).steps;
    var n1, n2 := |r1.steps|, |r1.steps| + |r2.steps|;
    assert r == r1.steps + r2.steps + r3.steps;
    assert r[..n1] == r1.steps;
    assert r[n1..n2] == r2.steps;
    assert r[n2..] == r3.steps;
  }

  lemma MergeInRange(a: seq<int>, left: nat, mid: nat, right: nat)
    requires left <= mid <= right < |a|
    ensures InRange(Merge(a, left, mid, right).steps, left, right)
  {
    MergeFromInRange(a, left, mid, a[left..mid + 1], a[mid + 1..right + 1], 0, 0);
  }

  /** Draining `mergeSort` leaves the array sorted and a permutation of its
      starting contents, every event announces its change, and an array of
      length 0 or 1 yields no events. */
  lemma SortCorrect(a: seq<int>)
    ensures Sorted(Sort(a).final)
    ensures multiset(Sort(a).final) == multiset(a)
    ensures Faithful(a, Sort(a).steps)
    ensures FinalShown(a, Sort(a))
    ensures |a| <= 1 ==> Sort(a).steps == []
  {
    SortRangeSorts(a, 0, |a| - 1);
    SortRangeFaithful(a, 0, |a| - 1);
    PermutesWhole(a, Sort(a).final, 0, |a|);
    assert Sort(a).final[0..|a|] == Sort(a).final;
  }
}
