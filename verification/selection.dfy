/** Selection sort as the visualiser's generator runs it: pass `i` scans
    `i+1 .. n-1` for the leftmost minimum, announcing every comparison
    together with the current minimum's index, and swaps that minimum into
    position `i` when it is not already there. */
module SelectionSort {
  import opened Arrays
  import opened Traces

  /** `m` is the leftmost position of a minimum of `a[lo..hi]`. */
  predicate LeftmostMin(a: seq<int>, lo: int, hi: int, m: int) {
    && 0 <= lo <= m < hi <= |a|
    && (forall k :: lo <= k < hi ==> a[m] <= a[k])
    && (forall k :: lo <= k < m ==> a[m] < a[k])
  }

  /** The events of one scan and the minimum index it ends with. */
  datatype Scan = Scan(steps: seq<Step>, minIdx: nat)

  /** The inner loop of pass `i`, from `j` on: yield `compare [i, j]` with
      `extra: [minIdx]`, then move `minIdx` to `j` if `a[j] < a[minIdx]`. */
  function ScanFrom(a: seq<int>, i: nat, j: nat, minIdx: nat): (r: Scan)
    requires i <= minIdx < j <= |a|
    ensures i <= r.minIdx < |a|
    decreases |a| - j
  {
    if j < |a| then
      var c := Step(Event(Compare, [i, j], [minIdx]), a);
      var rest := ScanFrom(a, i, j + 1, if a[j] < a[minIdx] then j else minIdx);
      Scan([c] + rest.steps, rest.minIdx)
    else
      Scan([], minIdx)
  }

  /** Pass `i`: scan, then swap `[i, minIdx]` and yield it if `minIdx !== i`. */
  function Pass(a: seq<int>, i: nat): (r: Run)
    requires i + 1 < |a|
    ensures |r.final| == |a|
  {
    var s := ScanFrom(a, i, i + 1, i);
    if s.minIdx != i then
      var b := Swapped(a, i, s.minIdx);
      Run(s.steps + [SwapStep(i, s.minIdx, b)], b)
    else
      Run(s.steps, a)
  }

  /** The outer loop, from pass `i` on, while `i < n - 1`. */
  function Passes(a: seq<int>, i: nat): (r: Run)
    ensures |r.final| == |a|
    decreases |a| - i
  {
    if i + 1 < |a| then
      var p := Pass(a, i);
      Then(p, Passes(p.final, i + 1))
    else
      Run([], a)
  }

  /** The `selectionSort` generator drained to exhaustion. */
  function Sort(a: seq<int>): (r: Run)
    ensures |r.final| == |a|
  {
    Passes(a, 0)
  }

  /** A scan keeps `minIdx` the leftmost minimum of what it has seen, so it
      ends on the leftmost minimum of `a[i..n-1]`. */
  lemma {:induction false} ScanFindsMin(a: seq<int>, i: nat, j: nat, m: nat)
    requires i <= m < j <= |a| && LeftmostMin(a, i, j, m)
    ensures LeftmostMin(a, i, |a|, ScanFrom(a, i, j, m).minIdx)
    decreases |a| - j
  {
    if j < |a| {
      ScanFindsMin(a, i, j + 1, if a[j] < a[m] then j else m);
    }
  }

  /** The event `s` compares `[i, j]` and carries in `extra` the leftmost
      minimum of the snapshot's `i .. j-1`. */
  predicate ShowsMinimum(s: Step) {
    var ix := s.event.indices;
    var ex := s.event.extra;
    |ix| == 2 && |ex| == 1 && LeftmostMin(s.snapshot, ix[0], ix[1], ex[0])
  }

  /** Every comparison of the trace carries the current minimum. */
  predicate MinimumsShown(steps: seq<Step>) {
    forall k :: 0 <= k < |steps| && steps[k].event.kind == Compare ==> ShowsMinimum(steps[k])
  }

  lemma MinimumsShownAppend(s1: seq<Step>, s2: seq<Step>)
    requires MinimumsShown(s1) && MinimumsShown(s2)
    ensures MinimumsShown(s1 + s2)
  {
    var steps := s1 + s2;
    forall k | 0 <= k < |steps| && steps[k].event.kind == Compare
      ensures ShowsMinimum(steps[k])
    {
      if k < |s1| {
        assert steps[k] == s1[k];
      } else {
        assert steps[k] == s2[k - |s1|];
      }
    }
  }

  lemma {:induction false} ScanShowsMinimums(a: seq<int>, i: nat, j: nat, m: nat)
    requires i <= m < j <= |a| && LeftmostMin(a, i, j, m)
    ensures MinimumsShown(ScanFrom(a, i, j, m).steps)
    decreases |a| - j
  {
    if j < |a| {
      var c := Step(Event(Compare, [i, j], [m]), a);
      var m' := if a[j] < a[m] then j else m;
      ScanShowsMinimums(a, i, j + 1, m');
      assert MinimumsShown([c]);
      MinimumsShownAppend([c], ScanFrom(a, i, j + 1, m').steps);
    }
  }

  lemma PassShowsMinimums(a: seq<int>, i: nat)
    requires i + 1 < |a|
    ensures MinimumsShown(Pass(a, i).steps)
  {
    var s := ScanFrom(a, i, i + 1, i);
    ScanShowsMinimums(a, i, i + 1, i);
    if s.minIdx != i {
      var b := Swapped(a, i, s.minIdx);
      assert MinimumsShown([SwapStep(i, s.minIdx, b)]);
      MinimumsShownAppend(s.steps, [SwapStep(i, s.minIdx, b)]);
    }
  }

  lemma {:induction false} PassesShowMinimums(a: seq<int>, i: nat)
    ensures MinimumsShown(Passes(a, i).steps)
    decreases |a| - i
  {
    if i + 1 < |a| {
      var p := Pass(a, i);
      PassShowsMinimums(a, i);
      PassesShowMinimums(p.final, i + 1);
      MinimumsShownAppend(p.steps, Passes(p.final, i + 1).steps);
    }
  }

  /** Every `compare [i, j]` of a `selectionSort` trace carries in `extra`
      the index of the leftmost minimum of `array[i..j-1]` at that moment. */
  lemma SortShowsMinimums(a: seq<int>)
    ensures MinimumsShown(Sort(a).steps)
  {
    PassesShowMinimums(a, 0);
  }

  /** A scan only compares: every event shows the unchanged array. */
  lemma {:induction false} ScanOnlyCompares(a: seq<int>, i: nat, j: nat, m: nat)
    requires i <= m < j <= |a|
    ensures Faithful(a, ScanFrom(a, i, j, m).steps)
    ensures Last(a, ScanFrom(a, i, j, m).steps) == a
    ensures Count(ScanFrom(a, i, j, m).steps, Compare) == |a| - j
    ensures Count(ScanFrom(a, i, j, m).steps, Swap) == 0
    decreases |a| - j
  {
    if j < |a| {
      var c := Step(Event(Compare, [i, j], [m]), a);
      var m' := if a[j] < a[m] then j else m;
      var rest := ScanFrom(a, i, j + 1, m').steps;
      ScanOnlyCompares(a, i, j + 1, m');
      FaithfulPrepend(a, c, rest);
      CountPrepend(c, rest, Compare);
      CountPrepend(c, rest, Swap);
      assert Last(a, [c] + rest) == Last(a, rest);
    }
  }

  /** Pass `i` moves the leftmost minimum of `a[i..n-1]` to position `i`,
      rearranging only `i..n-1`; with `a[..i]` already in final position,
      `a[..i+1]` is then in final position. */
  lemma PassPlacesMin(a: seq<int>, i: nat)
    requires i + 1 < |a| && PrefixPlaced(a, i)
    ensures Permutes(a, Pass(a, i).final, i, |a|)
    ensures PrefixPlaced(Pass(a, i).final, i + 1)
  {
    var m := ScanFrom(a, i, i + 1, i).minIdx;
    ScanFindsMin(a, i, i + 1, i);
    PlaceMin(a, Pass(a, i).final, i, m);
  }

  /** Exchanging the leftmost minimum `m` of `a[i..]` into position `i`
      (or leaving it there) rearranges `i..` and extends the placed prefix
      by one. */
  lemma PlaceMin(a: seq<int>, f: seq<int>, i: nat, m: nat)
    requires i + 1 < |a| && PrefixPlaced(a, i) && LeftmostMin(a, i, |a|, m)
    requires f == if m != i then Swapped(a, i, m) else a
    ensures Permutes(a, f, i, |a|) && PrefixPlaced(f, i + 1)
  {
    if m != i {
      SwapPermutes(a, i, m, i, |a|);
    } else {
      PermutesRefl(a, i, |a|);
    }
    assert f[i] == a[m];
    forall k | i <= k < |a|
      ensures f[i] <= f[k]
    {
      if k == m {
        assert f[k] == a[i];
      } else if k != i {
        assert f[k] == a[k];
      }
    }
  }

  /** Pass `i` compares `n - 1 - i` times, and swaps exactly once when some
      later element is smaller than `a[i]`, and never otherwise. */
  lemma PassCounts(a: seq<int>, i: nat)
    requires i + 1 < |a|
    ensures Count(Pass(a, i).steps, Compare) == |a| - 1 - i
    ensures Count(Pass(a, i).steps, Swap) <= 1
    ensures Count(Pass(a, i).steps, Swap) == 1 <==> exists k :: i < k < |a| && a[k] < a[i]
  {
    var s := ScanFrom(a, i, i + 1, i);
    var m := s.minIdx;
    ScanFindsMin(a, i, i + 1, i);
    ScanOnlyCompares(a, i, i + 1, i);
    if m != i {
      var w := SwapStep(i, m, Swapped(a, i, m));
      CountAppend(s.steps, [w], Compare);
      CountAppend(s.steps, [w], Swap);
      CountPrepend(w, [], Compare);
      CountPrepend(w, [], Swap);
      assert [w] == [w] + [];
      assert a[m] < a[i];
    } else {
      forall k | i < k < |a|
        ensures a[i] <= a[k]
      {
      }
    }
  }

  lemma {:induction false} PassesSort(a: seq<int>, i: nat)
    requires i <= |a| && PrefixPlaced(a, i)
    ensures Sorted(Passes(a, i).final)
    ensures multiset(Passes(a, i).final) == multiset(a)
    ensures FinalShown(a, Passes(a, i))
    decreases |a| - i
  {
    if i + 1 < |a| {
      var p := Pass(a, i);
      PassPlacesMin(a, i);
      PassPlacesFinal(a, i);
      PermutesWhole(a, p.final, i, |a|);
      PassesSort(p.final, i + 1);
      FinalShownThen(a, p, Passes(p.final, i + 1));
    } else {
      PrefixPlacedSorted(a, i);
    }
  }

  /** One pass, then the passes after it. */
  lemma PassesUnfold(a: seq<int>, i: nat, b: seq<int>, i': nat)
    requires i + 1 < |a| && i' == i + 1 && b == Pass(a, i).final
    ensures Passes(a, i) == Then(Pass(a, i), Passes(b, i'))
  {
  }

  /** The passes from `i` on, `r = n - i` positions still unplaced. */
  lemma {:induction false} PassesCompares(a: seq<int>, i: nat, r: nat)
    requires i <= |a| && r == |a| - i
    ensures Count(Passes(a, i).steps, Compare) == Pairs(r)
    decreases r
  {
    if i + 1 < |a| {
      var p := Pass(a, i);
      var b, i', r' := p.final, i + 1, r - 1;
      var rest := Passes(b, i').steps;
      PassCounts(a, i);
      PassesCompares(b, i', r');
      CountAppend(p.steps, rest, Compare);
      PassesUnfold(a, i, b, i');
      PairsStep(r, r');
    } else {
      assert Pairs(r) == 0 by {
        if r == 1 {
          assert Pairs(1) == 0 + Pairs(0);
        }
      }
    }
  }

  /** Draining `selectionSort` leaves the array sorted and a permutation of
      its starting contents, after exactly n(n-1)/2 comparisons; an array of
      length 0 or 1 yields no events. */
  lemma SortCorrect(a: seq<int>)
    ensures Sorted(Sort(a).final)
    ensures multiset(Sort(a).final) == multiset(a)
    ensures FinalShown(a, Sort(a))
    ensures 2 * Count(Sort(a).steps, Compare) == |a| * (|a| - 1)
    ensures |a| <= 1 ==> Sort(a).steps == []
  {
    PassesSort(a, 0);
    PassesCompares(a, 0, |a|);
    PairsClosedForm(|a|);
  }

  lemma PassFaithful(a: seq<int>, i: nat)
    requires i + 1 < |a|
    ensures Faithful(a, Pass(a, i).steps)
  {
    var s := ScanFrom(a, i, i + 1, i);
    ScanOnlyCompares(a, i, i + 1, i);
    if s.minIdx != i {
      var b := Swapped(a, i, s.minIdx);
      FaithfulPrepend(a, SwapStep(i, s.minIdx, b), []);
      assert [SwapStep(i, s.minIdx, b)] + [] == [SwapStep(i, s.minIdx, b)];
      FaithfulAppend(a, s.steps, [SwapStep(i, s.minIdx, b)]);
    }
  }

  lemma {:induction false} PassesFaithful(a: seq<int>, i: nat)
    ensures Faithful(a, Passes(a, i).steps)
    ensures Count(Passes(a, i).steps, Swap) <= |a| - 1 - i || i + 1 >= |a|
    decreases |a| - i
  {
    if i + 1 < |a| {
      var p := Pass(a, i);
      var rest := Passes(p.final, i + 1);
      PassFaithful(a, i);
      PassCounts(a, i);
      PassPlacesFinal(a, i);
      PassesFaithful(p.final, i + 1);
      FaithfulAppend(a, p.steps, rest.steps);
      CountAppend(p.steps, rest.steps, Swap);
      if i + 2 >= |a| {
        assert rest.steps == [];
      }
    }
  }

  /** The last event of a pass shows the array the pass leaves. */
  lemma PassPlacesFinal(a: seq<int>, i: nat)
    requires i + 1 < |a|
    ensures FinalShown(a, Pass(a, i))
  {
    ScanOnlyCompares(a, i, i + 1, i);
  }

  /** Every event of a `selectionSort` trace names exactly the change it
      made, and there are at most n - 1 swaps. */
  lemma SortFaithful(a: seq<int>)
    ensures Faithful(a, Sort(a).steps)
    ensures |a| > 0 ==> Count(Sort(a).steps, Swap) <= |a| - 1
  {
    PassesFaithful(a, 0);
  }
}
