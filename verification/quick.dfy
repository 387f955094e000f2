/** Quick sort as the visualiser's generators run it: `partition(low,
    high)` (Lomuto's scheme, pivot `array[high]`) and `quickSort(low, high)`
    recursing on both sides of the pivot's final position. */
module QuickSort {
  import opened Arrays
  import opened Traces

  /** The state of `partition`'s loop: its events so far, the array, and
      `i`, the last position of the block below the pivot (`low - 1` while
      that block is empty). */
  datatype Scanned = Scanned(steps: seq<Step>, final: seq<int>, i: int)

  /** What `partition` yields and leaves, and the position it returns. */
  datatype Partitioned = Partitioned(run: Run, pi: nat)

  /** One iteration at `j`: yield `compare [j, high]`; if `a[j] < pivot`,
      advance `i`, exchange `a[i]` and `a[j]` and yield `swap [i, j]` (even
      when `i == j`). */
  function Visit(a: seq<int>, high: nat, pivot: int, i: int, j: nat): (r: Scanned)
    requires -1 <= i < j < high < |a|
    ensures |r.final| == |a| && (r.i == i || r.i == i + 1)
  {
    var c := CompareStep(j, high, a);
    if a[j] < pivot then
      var b := Swapped(a, i + 1, j);
      Scanned([c, SwapStep(i + 1, j, b)], b, i + 1)
    else
      Scanned([c], a, i)
  }

  /** The `for` loop of `partition`, from `j` on, while `j < high`. */
  function Scan(a: seq<int>, low: nat, high: nat, pivot: int, i: int, j: nat): (r: Scanned)
    requires low - 1 <= i < j <= high < |a|
    ensures |r.final| == |a| && low - 1 <= r.i < high
    decreases high - j
  {
    if j < high then
      var v := Visit(a, high, pivot, i, j);
      var rest := Scan(v.final, low, high, pivot, v.i, j + 1);
      Scanned(v.steps + rest.steps, rest.final, rest.i)
    else
      Scanned([], a, i)
  }

  /** `partition(low, high)`: scan with `pivot = a[high]` and `i = low - 1`,
      then exchange `a[i + 1]` and `a[high]`, yield `swap [i + 1, high]` and
      return `i + 1`. */
  function Partition(a: seq<int>, low: nat, high: nat): (r: Partitioned)
    requires low <= high < |a|
    ensures |r.run.final| == |a| && low <= r.pi <= high
  {
    var s := Scan(a, low, high, a[high], low - 1, low);
    var b := Swapped(s.final, s.i + 1, high);
    Partitioned(Run(s.steps + [SwapStep(s.i + 1, high, b)], b), s.i + 1)
  }

  /** `quickSort(low, high)`: when `low < high`, partition, then sort
      `low .. pi-1` and `pi+1 .. high`. */
  function SortRange(a: seq<int>, low: nat, high: int): (r: Run)
    requires low <= high + 1 <= |a|
    ensures |r.final| == |a|
    decreases high - low
  {
    if low < high then
      var p := Partition(a, low, high);
      var r1 := SortRange(p.run.final, low, p.pi - 1);
      var r2 := SortRange(r1.final, p.pi + 1, high);
      Then(p.run, Then(r1, r2))
    else
      Run([], a)
  }

  /** The `quickSort` generator drained to exhaustion, called with its
      default arguments `low = 0`, `high = array.length - 1`. */
  function Sort(a: seq<int>): (r: Run)
    ensures |r.final| == |a|
  {
    SortRange(a, 0, |a| - 1)
  }

  // ---------------------------------------------------------------------
  // Partition

  /** `low .. i` holds elements below the pivot and `i+1 .. j-1` elements
      no smaller than it. */
  predicate SplitAt(b: seq<int>, low: int, i: int, j: int, pivot: int)
    requires 0 <= low && low - 1 <= i < j <= |b|
  {
    && (forall k :: low <= k <= i ==> b[k] < pivot)
    && (forall k :: i < k < j ==> b[k] >= pivot)
  }

  lemma VisitPermutes(a: seq<int>, low: nat, high: nat, pivot: int, i: int, j: nat)
    requires low - 1 <= i < j < high < |a|
    ensures Permutes(a, Visit(a, high, pivot, i, j).final, low, high)
  {
    if a[j] < pivot {
      SwapPermutes(a, i + 1, j, low, high);
    } else {
      PermutesRefl(a, low, high);
    }
  }

  lemma VisitSplits(a: seq<int>, low: nat, high: nat, pivot: int, i: int, j: nat)
    requires low - 1 <= i < j < high < |a| && SplitAt(a, low, i, j, pivot)
    ensures SplitAt(Visit(a, high, pivot, i, j).final, low, Visit(a, high, pivot, i, j).i, j + 1, pivot)
    ensures Visit(a, high, pivot, i, j).final[high] == a[high]
  {
  }

  /** One iteration of the loop, then the rest of it from `j' = j + 1`. */
  lemma ScanUnfold(a: seq<int>, low: nat, high: nat, pivot: int, i: int, j: nat, v: Scanned, j': nat)
    requires low - 1 <= i < j < high < |a| && v == Visit(a, high, pivot, i, j) && j' == j + 1
    ensures var rest := Scan(v.final, low, high, pivot, v.i, j');
      Scan(a, low, high, pivot, i, j) == Scanned(v.steps + rest.steps, rest.final, rest.i)
  {
  }

  /** The loop moves only elements of `low .. high-1`. */
  lemma {:induction false} ScanPermutes(a: seq<int>, low: nat, high: nat, pivot: int, i: int, j: nat)
    requires low - 1 <= i < j <= high < |a|
    ensures Permutes(a, Scan(a, low, high, pivot, i, j).final, low, high)
    decreases high - j
  {
    if j < high {
      var v, j' := Visit(a, high, pivot, i, j), j + 1;
      ScanUnfold(a, low, high, pivot, i, j, v, j');
      VisitPermutes(a, low, high, pivot, i, j);
      ScanPermutes(v.final, low, high, pivot, v.i, j');
      PermutesTrans(a, v.final, Scan(v.final, low, high, pivot, v.i, j').final, low, high);
    } else {
      PermutesRefl(a, low, high);
    }
  }

  /** The loop keeps `SplitAt`, and the pivot at `high` stays where it is. */
  lemma {:induction false} ScanSplits(a: seq<int>, low: nat, high: nat, pivot: int, i: int, j: nat)
    requires low - 1 <= i < j <= high < |a| && SplitAt(a, low, i, j, pivot)
    ensures SplitAt(Scan(a, low, high, pivot, i, j).final, low, Scan(a, low, high, pivot, i, j).i, high, pivot)
    ensures Scan(a, low, high, pivot, i, j).final[high] == a[high]
    decreases high - j
  {
    if j < high {
      var v, j' := Visit(a, high, pivot, i, j), j + 1;
      ScanUnfold(a, low, high, pivot, i, j, v, j');
      VisitSplits(a, low, high, pivot, i, j);
      ScanSplits(v.final, low, high, pivot, v.i, j');
    }
  }

  lemma {:induction false} ScanFaithful(a: seq<int>, low: nat, high: nat, pivot: int, i: int, j: nat)
    requires low - 1 <= i < j <= high < |a|
    ensures Faithful(a, Scan(a, low, high, pivot, i, j).steps)
    ensures Last(a, Scan(a, low, high, pivot, i, j).steps) == Scan(a, low, high, pivot, i, j).final
    decreases high - j
  {
    if j < high {
      var v, j' := Visit(a, high, pivot, i, j), j + 1;
      var rest := Scan(v.final, low, high, pivot, v.i, j');
      ScanUnfold(a, low, high, pivot, i, j, v, j');
      VisitSplitsFaithful(a, high, pivot, i, j);
      ScanFaithful(v.final, low, high, pivot, v.i, j');
      FaithfulAppend(a, v.steps, rest.steps);
      FinalShownThen(a, Run(v.steps, v.final), Run(rest.steps, rest.final));
    }
  }

  lemma VisitSplitsFaithful(a: seq<int>, high: nat, pivot: int, i: int, j: nat)
    requires -1 <= i < j < high < |a|
    ensures Faithful(a, Visit(a, high, pivot, i, j).steps)
    ensures Last(a, Visit(a, high, pivot, i, j).steps) == Visit(a, high, pivot, i, j).final
  {
    var v := Visit(a, high, pivot, i, j);
    var c := CompareStep(j, high, a);
    if a[j] < pivot {
      var w := SwapStep(i + 1, j, v.final);
      FaithfulPrepend(a, w, []);
      assert [w] + [] == [w];
      FaithfulPrepend(a, c, [w]);
      assert v.steps == [c] + [w];
    } else {
      FaithfulPrepend(a, c, []);
      assert v.steps == [c] + [];
    }
  }

  /** Every swap among `steps` names only positions below `high`. */
  predicate SwapsBelow(steps: seq<Step>, high: int) {
    forall k, p :: 0 <= k < |steps| && steps[k].event.kind == Swap && 0 <= p < |steps[k].event.indices| ==>
      steps[k].event.indices[p] < high
  }

  /** The loop's swaps exchange `a[i + 1]` and `a[j]` with `j < high`, so
      none of them touches the pivot's slot. */
  lemma {:induction false} ScanSwapsBelow(a: seq<int>, low: nat, high: nat, pivot: int, i: int, j: nat)
    requires low - 1 <= i < j <= high < |a|
    ensures SwapsBelow(Scan(a, low, high, pivot, i, j).steps, high)
    decreases high - j
  {
    if j < high {
      var v := Visit(a, high, pivot, i, j);
      var j' := j + 1;
      var rest := Scan(v.final, low, high, pivot, v.i, j');
      ScanUnfold(a, low, high, pivot, i, j, v, j');
      ScanSwapsBelow(v.final, low, high, pivot, v.i, j');
      assert SwapsBelow(v.steps, high);
      var s := v.steps + rest.steps;
      forall k, p | 0 <= k < |s| && s[k].event.kind == Swap && 0 <= p < |s[k].event.indices|
        ensures s[k].event.indices[p] < high
      {
        if k >= |v.steps| {
          assert s[k] == rest.steps[k - |v.steps|];
        }
      }
    }
  }

  /** `partition(low, high)` touches the pivot's slot `high` only in its
      last event, `swap [pi, high]`, which carries the pivot `a[high]` to
      `pi`: no earlier swap names `high`. */
  lemma PartitionEndsWithSwap(a: seq<int>, low: nat, high: nat)
    requires low <= high < |a|
    ensures var p := Partition(a, low, high);
      p.run.steps[|p.run.steps| - 1] == SwapStep(p.pi, high, p.run.final)
    ensures var p := Partition(a, low, high);
      SwapsBelow(p.run.steps[..|p.run.steps| - 1], high)
    ensures var p := Partition(a, low, high);
      p.run.final[p.pi] == a[high]
  {
    var s := Scan(a, low, high, a[high], low - 1, low);
    ScanSwapsBelow(a, low, high, a[high], low - 1, low);
    var p := Partition(a, low, high);
    assert p.run.steps[..|p.run.steps| - 1] == s.steps;
    PartitionSplits(a, low, high);
  }

  /** `partition(low, high)` only rearranges `low .. high`. */
  lemma PartitionPermutes(a: seq<int>, low: nat, high: nat)
    requires low <= high < |a|
    ensures Permutes(a, Partition(a, low, high).run.final, low, high + 1)
  {
    var s := Scan(a, low, high, a[high], low - 1, low);
    var p, hi := s.i + 1, high + 1;
    assert Partition(a, low, high).run.final == Swapped(s.final, p, high);
    ScanPermutes(a, low, high, a[high], low - 1, low);
    SwapAfter(a, s.final, p, low, high, hi);
  }

  /** A rearrangement of `lo .. hi-1` followed by an exchange inside
      `lo .. hi` is a rearrangement of `lo .. hi`. */
  lemma SwapAfter(a: seq<int>, b: seq<int>, p: nat, lo: nat, hi: nat, hi': nat)
    requires Permutes(a, b, lo, hi) && lo <= p <= hi < |a| && hi' == hi + 1
    ensures Permutes(a, Swapped(b, p, hi), lo, hi')
  {
    PermutesWiden(a, b, lo, hi, lo, hi');
    SwapPermutes(b, p, hi, lo, hi');
    PermutesTrans(a, b, Swapped(b, p, hi), lo, hi + 1);
  }

  /** `partition(low, high)` returns `pi` in `low .. high` and leaves the
      pivot `a[high]` at `pi`, every element before it (from `low`) below
      it and every element after it (up to `high`) no smaller. */
  lemma PartitionSplits(a: seq<int>, low: nat, high: nat)
    requires low <= high < |a|
    ensures var p := Partition(a, low, high);
      && p.run.final[p.pi] == a[high]
      && (forall k :: low <= k < p.pi ==> p.run.final[k] < p.run.final[p.pi])
      && (forall k :: p.pi < k <= high ==> p.run.final[k] >= p.run.final[p.pi])
  {
    ScanSplits(a, low, high, a[high], low - 1, low);
  }

  /** Every event of `partition` announces its change, and the last one
      shows the array it leaves. */
  lemma PartitionFaithful(a: seq<int>, low: nat, high: nat)
    requires low <= high < |a|
    ensures Faithful(a, Partition(a, low, high).run.steps)
    ensures FinalShown(a, Partition(a, low, high).run)
  {
    var s := Scan(a, low, high, a[high], low - 1, low);
    ScanFaithful(a, low, high, a[high], low - 1, low);
    AppendSwap(a, s.steps, s.final, s.i + 1, high);
  }

  /** A faithful run extended by one more announced exchange is faithful,
      and ends on the exchanged array. */
  lemma AppendSwap(a: seq<int>, steps: seq<Step>, b: seq<int>, p: nat, q: nat)
    requires Faithful(a, steps) && Last(a, steps) == b && p < |b| && q < |b|
    ensures Faithful(a, steps + [SwapStep(p, q, Swapped(b, p, q))])
    ensures Last(a, steps + [SwapStep(p, q, Swapped(b, p, q))]) == Swapped(b, p, q)
  {
    var w := SwapStep(p, q, Swapped(b, p, q));
    FaithfulPrepend(b, w, []);
    assert [w] + [] == [w];
    FaithfulAppend(a, steps, [w]);
  }

  // ---------------------------------------------------------------------
  // The recursion

  /** A range with a sorted block below `pi`, a sorted block above it, and
      `f[pi]` between the two is sorted. */
  lemma SortedAround(f: seq<int>, low: nat, pi: nat, high: nat)
    requires low <= pi <= high < |f|
    requires Sorted(f[low..pi]) && Sorted(f[pi + 1..high + 1])
    requires AtMost(f[low..pi], f[pi]) && AtLeast(f[pi + 1..high + 1], f[pi])
    ensures Sorted(f[low..high + 1])
  {
    var s := f[low..high + 1];
    forall p, q | 0 <= p < q < |s|
      ensures s[p] <= s[q]
    {
      var x, y := low + p, low + q;
      if x < pi {
        assert f[x] == f[low..pi][x - low];
      } else if x > pi {
        assert f[x] == f[pi + 1..high + 1][x - pi - 1];
      }
      if y < pi {
        assert f[y] == f[low..pi][y - low];
      } else if y > pi {
        assert f[y] == f[pi + 1..high + 1][y - pi - 1];
      }
    }
  }

  /** The three stages of `quickSort(low, high)` together rearrange only
      `low .. high`. */
  lemma PermutesStages(a: seq<int>, b: seq<int>, c: seq<int>, d: seq<int>, low: nat, pi: nat, high: nat)
    requires low <= pi <= high < |a|
    requires Permutes(a, b, low, high + 1) && Permutes(b, c, low, pi) && Permutes(c, d, pi + 1, high + 1)
    ensures Permutes(a, d, low, high + 1)
  {
    PermutesCompose(b, c, d, low, pi, pi + 1, high + 1, low, high + 1);
    PermutesTrans(a, b, d, low, high + 1);
  }

  /** Sorting the blocks on either side of a pivot in place, the one below
      it first, sorts the whole range. */
  lemma Assemble(b: seq<int>, c: seq<int>, f: seq<int>, low: nat, pi: nat, high: nat)
    requires low <= pi <= high < |b|
    requires forall k :: low <= k < pi ==> b[k] < b[pi]
    requires forall k :: pi < k <= high ==> b[k] >= b[pi]
    requires Permutes(b, c, low, pi) && Permutes(c, f, pi + 1, high + 1)
    requires Sorted(c[low..pi]) && Sorted(f[pi + 1..high + 1])
    ensures Sorted(f[low..high + 1])
  {
    assert f[pi] == c[pi] == b[pi];
    // the block below the pivot: rearranged by the first call, then left alone
    PermutesFrame(c, f, pi + 1, high + 1, low, pi);
    assert AtMost(b[low..pi], b[pi]);
    BoundsSurvive(b[low..pi], c[low..pi], b[pi]);
    // the block above the pivot: left alone by the first call, then rearranged
    PermutesFrame(b, c, low, pi, pi + 1, high + 1);
    assert AtLeast(b[pi + 1..high + 1], b[pi]);
    BoundsSurvive(c[pi + 1..high + 1], f[pi + 1..high + 1], b[pi]);
    SortedAround(f, low, pi, high);
  }

  /** One level of `quickSort(low, high)`: partition, then the block below
      the pivot `low .. h1`, `h1 = pi - 1`, then the block above it
      `lo2 .. high`, `lo2 = pi + 1`. */
  lemma SortRangeUnfold(a: seq<int>, low: nat, high: nat, p: Partitioned, b: seq<int>, h1: int, lo2: nat, c: seq<int>)
    requires low < high < |a| && p == Partition(a, low, high) && b == p.run.final
    requires h1 == p.pi - 1 && lo2 == p.pi + 1 && c == SortRange(b, low, h1).final
    ensures SortRange(a, low, high) == Then(p.run, Then(SortRange(b, low, h1), SortRange(c, lo2, high)))
  {
  }

  /** `quickSort(low, high)` rearranges nothing outside `low .. high`. */
  lemma {:induction false} SortRangePermutes(a: seq<int>, low: nat, high: int)
    requires low <= high + 1 <= |a|
    ensures Permutes(a, SortRange(a, low, high).final, low, high + 1)
    decreases high - low
  {
    if low < high {
      var p := Partition(a, low, high);
      var b, h1, lo2 := p.run.final, p.pi - 1, p.pi + 1;
      var c := SortRange(b, low, h1).final;
      var d := SortRange(c, lo2, high).final;
      PartitionPermutes(a, low, high);
      SortRangePermutes(b, low, h1);
      SortRangePermutes(c, lo2, high);
      SortRangeUnfold(a, low, high, p, b, h1, lo2, c);
      PermutesStages(a, b, c, d, low, p.pi, high);
    } else {
      PermutesRefl(a, low, high + 1);
    }
  }

  /** `quickSort(low, high)` sorts `low .. high`. */
  lemma {:induction false} SortRangeSorts(a: seq<int>, low: nat, high: int)
    requires low <= high + 1 <= |a|
    ensures Sorted(SortRange(a, low, high).final[low..high + 1])
    decreases high - low
  {
    if low < high {
      var p := Partition(a, low, high);
      var b, h1, lo2 := p.run.final, p.pi - 1, p.pi + 1;
      var c := SortRange(b, low, h1).final;
      var d := SortRange(c, lo2, high).final;
      PartitionSplits(a, low, high);
      SortRangePermutes(b, low, h1);
      SortRangePermutes(c, lo2, high);
      SortRangeSorts(b, low, h1);
      SortRangeSorts(c, lo2, high);
      SortRangeUnfold(a, low, high, p, b, h1, lo2, c);
      Assemble(b, c, d, low, p.pi, high);
    }
  }

  /** Every event of `quickSort(low, high)` announces its change. */
  lemma {:induction false} SortRangeFaithful(a: seq<int>, low: nat, high: int)
    requires low <= high + 1 <= |a|
    ensures Faithful(a, SortRange(a, low, high).steps)
    ensures FinalShown(a, SortRange(a, low, high))
    decreases high - low
  {
    if low < high {
      var p := Partition(a, low, high);
      var b, h1, lo2 := p.run.final, p.pi - 1, p.pi + 1;
      var r1 := SortRange(b, low, h1);
      var r2 := SortRange(r1.final, lo2, high);
      PartitionFaithful(a, low, high);
      SortRangeFaithful(b, low, h1);
      SortRangeFaithful(r1.final, lo2, high);
      SortRangeUnfold(a, low, high, p, b, h1, lo2, r1.final);
      FaithfulThen(p.run.final, r1, r2);
      FaithfulThen(a, p.run, Then(r1, r2));
    }
  }

  /** Draining `quickSort` leaves the array sorted and a permutation of its
      starting contents, every event announces its change, and an array of
      length 0 or 1 yields no events. */
  lemma SortCorrect(a: seq<int>)
    ensures Sorted(Sort(a).final)
    ensures multiset(Sort(a).final) == multiset(a)
    ensures Faithful(a, Sort(a).steps)
    ensures FinalShown(a, Sort(a))
    ensures |a| <= 1 ==> Sort(a).steps == []
  {
    SortRangePermutes(a, 0, |a| - 1);
    SortRangeSorts(a, 0, |a| - 1);
    SortRangeFaithful(a, 0, |a| - 1);
    PermutesWhole(a, Sort(a).final, 0, |a|);
    assert Sort(a).final[0..|a|] == Sort(a).final;
  }

  /** A sorted array comes back unchanged: the sorted rearrangement of its
      values is unique. */
  lemma SortKeepsSorted(a: seq<int>)
    requires Sorted(a)
    ensures Sort(a).final == a
  {
    SortCorrect(a);
    SortedUnique(Sort(a).final, a);
  }

  // ---------------------------------------------------------------------
  // All elements equal

  /** With all elements equal, no element is below the pivot: the loop only
      compares. */
  lemma {:induction false} ScanAllEqual(a: seq<int>, low: nat, high: nat, v: int, j: nat)
    requires low <= j <= high < |a| && AllEqual(a, v)
    ensures Scan(a, low, high, v, low - 1, j).final == a
    ensures Scan(a, low, high, v, low - 1, j).i == low - 1
    ensures Count(Scan(a, low, high, v, low - 1, j).steps, Compare) == high - j
    decreases high - j
  {
    if j < high {
      var c, i, j' := CompareStep(j, high, a), low - 1, j + 1;
      var w := Visit(a, high, v, i, j);
      assert w == Scanned([c], a, i);
      ScanUnfold(a, low, high, v, i, j, w, j');
      var rest := Scan(a, low, high, v, i, j').steps;
      ScanAllEqual(a, low, high, v, j');
      CountPrepend(c, rest, Compare);
    }
  }

  /** With all elements equal, `partition(low, high)` compares `high - low`
      times, changes nothing and returns `low`. */
  lemma PartitionAllEqual(a: seq<int>, low: nat, high: nat, v: int)
    requires low <= high < |a| && AllEqual(a, v)
    ensures Partition(a, low, high).run.final == a
    ensures Partition(a, low, high).pi == low
    ensures Count(Partition(a, low, high).run.steps, Compare) == high - low
  {
    var s := Scan(a, low, high, v, low - 1, low);
    ScanAllEqual(a, low, high, v, low);
    var w := SwapStep(low, high, a);
    assert Swapped(a, low, high) == a;
    CountAppend(s.steps, [w], Compare);
    CountPrepend(w, [], Compare);
    assert [w] + [] == [w];
  }

  /** With all elements equal, `quickSort(low, high)` changes nothing and
      compares every pair: the pivot always lands at `low`. */
  lemma {:induction false} SortRangeAllEqual(a: seq<int>, low: nat, high: int, v: int, n: nat)
    requires low <= high + 1 <= |a| && AllEqual(a, v) && n == high + 1 - low
    ensures SortRange(a, low, high).final == a
    ensures Count(SortRange(a, low, high).steps, Compare) == Pairs(n)
    decreases n
  {
    if low < high {
      var p := Partition(a, low, high);
      var h1, lo2, n' := p.pi - 1, p.pi + 1, n - 1;
      PartitionAllEqual(a, low, high, v);
      var r1 := SortRange(a, low, h1);
      var r2 := SortRange(a, lo2, high);
      assert r1 == Run([], a);
      SortRangeAllEqual(a, lo2, high, v, n');
      SortRangeUnfold(a, low, high, p, a, h1, lo2, a);
      ThenSilent(r1, r2);
      CountAppend(p.run.steps, r2.steps, Compare);
      PairsStep(n, n');
    } else if n == 1 {
      assert Pairs(1) == 0 + Pairs(0);
    }
  }

  /** An array of equal values is left unchanged after n(n-1)/2
      comparisons: the quadratic case of this pivot rule. */
  lemma SortAllEqual(a: seq<int>, v: int)
    requires AllEqual(a, v)
    ensures Sort(a).final == a
    ensures 2 * Count(Sort(a).steps, Compare) == |a| * (|a| - 1)
  {
    SortRangeAllEqual(a, 0, |a| - 1, v, |a|);
    PairsClosedForm(|a|);
  }
}
