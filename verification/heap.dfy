/** Heap sort as the visualiser's generators run it: `heapify(i, n)` sifts
    `array[i]` down a max-heap stored in `array[0 .. n-1]` (children of `k`
    at `2k+1` and `2k+2`), and `heapSort` builds the heap bottom-up, then
    repeatedly moves the root behind the shrinking heap.

    `heapify` yields a `compare` event only when a comparison SUCCEEDS (a
    child is strictly larger than the largest seen so far); a comparison
    that fails yields nothing. */
module HeapSort {
  import opened Arrays
  import opened Traces

  /** The outcome of `heapify`'s two `if`s: the events they yielded and the
      position `largest` they settled on. */
  datatype Choice = Choice(steps: seq<Step>, largest: nat)

  /** The two conditional comparisons of `heapify(i, n)`: the left child
      replaces `largest` when it is strictly greater, then the right child
      replaces the current `largest` when strictly greater; each success
      yields `compare [child, largest-so-far]`. */
  function Largest(a: seq<int>, i: nat, n: nat): (r: Choice)
    requires i < n <= |a|
    ensures i <= r.largest < n
  {
    var left, right := 2 * i + 1, 2 * i + 2;
    var c := if left < n && a[left] > a[i] then Choice([CompareStep(left, i, a)], left) else Choice([], i);
    if right < n && a[right] > a[c.largest] then
      Choice(c.steps + [CompareStep(right, c.largest, a)], right)
    else
      c
  }

  /** `heapify(i, n)`: when `largest != i`, exchange `a[i]` and
      `a[largest]`, yield `swap [i, largest]` and continue at `largest`. */
  function Heapify(a: seq<int>, i: nat, n: nat): (r: Run)
    requires i < n <= |a|
    ensures |r.final| == |a|
    decreases n - i
  {
    var c := Largest(a, i, n);
    if c.largest != i then
      var b := Swapped(a, i, c.largest);
      Then(Run(c.steps, a), Prepend(SwapStep(i, c.largest, b), Heapify(b, c.largest, n)))
    else
      Run(c.steps, a)
  }

  /** The first loop of `heapSort`: `heapify(i, length)` for `i` from the
      given position down to 0. */
  function Build(a: seq<int>, i: int): (r: Run)
    requires -1 <= i < |a|
    ensures |r.final| == |a|
    decreases i + 1
  {
    if i >= 0 then
      var h := Heapify(a, i, |a|);
      Then(h, Build(h.final, i - 1))
    else
      Run([], a)
  }

  /** The second loop of `heapSort`, from the given `i` down to 1: exchange
      the root with `a[i]`, yield `swap [0, i]`, then `heapify(0, i)`. */
  function Extract(a: seq<int>, i: int): (r: Run)
    requires -1 <= i < |a|
    ensures |r.final| == |a|
    decreases i
  {
    if i > 0 then
      var b := Swapped(a, 0, i);
      var h := Heapify(b, 0, i);
      Prepend(SwapStep(0, i, b), Then(h, Extract(h.final, i - 1)))
    else
      Run([], a)
  }

  /** The `heapSort` generator drained to exhaustion: build from
      `floor(length / 2) - 1`, extract from `length - 1`. */
  function Sort(a: seq<int>): (r: Run)
    ensures |r.final| == |a|
  {
    var b := Build(a, |a| / 2 - 1);
    Then(b, Extract(b.final, |a| - 1))
  }

  /** `Sort` with the two loop bounds named: the build loop starts at
      `m = floor(length / 2) - 1`, the extraction loop at `n = length - 1`. */
  lemma SortUnfold(a: seq<int>, m: int, n: int, b: Run)
    requires m == |a| / 2 - 1 && n == |a| - 1 && b == Build(a, m)
    ensures Sort(a) == Then(b, Extract(b.final, n))
  {
  }

  // ---------------------------------------------------------------------
  // The heap

  /** The position whose children are `2k+1` and `2k+2`. */
  function Parent(k: nat): (p: nat)
    requires k > 0
    ensures p < k && (k == 2 * p + 1 || k == 2 * p + 2)
  {
    (k - 1) / 2
  }

  /** Every parent at position `lo` or later within `a[0 .. n-1]` is at
      least each of its children. */
  predicate Heap(a: seq<int>, lo: int, n: int) {
    n <= |a| && forall k :: 0 < k < n && lo <= Parent(k) ==> a[Parent(k)] >= a[k]
  }

  /** `Heap`, except possibly at the parent `i`. */
  predicate HeapBut(a: seq<int>, lo: int, i: int, n: int) {
    n <= |a| && forall k :: 0 < k < n && lo <= Parent(k) && Parent(k) != i ==> a[Parent(k)] >= a[k]
  }

  /** When `i` has a parent inside the heap region, that parent is at least
      each of `i`'s children: the condition under which sifting `a[i]` down
      repairs the heap. */
  predicate ParentCovers(a: seq<int>, lo: int, i: nat, n: int) {
    n <= |a| && i < |a| &&
    (i > 0 && lo <= Parent(i) ==> forall k :: 0 < k < n && Parent(k) == i ==> a[Parent(i)] >= a[k])
  }

  /** `heapify`'s choice is the largest of `a[i]` and its children inside
      the heap, moves away from `i` only to a strictly larger child, and
      prefers `i`, then the left child, on ties. */
  lemma LargestIsMax(a: seq<int>, i: nat, n: nat)
    requires i < n <= |a|
    ensures var m := Largest(a, i, n).largest;
      && (m == i || m == 2 * i + 1 || m == 2 * i + 2)
      && a[m] >= a[i]
      && (2 * i + 1 < n ==> a[m] >= a[2 * i + 1])
      && (2 * i + 2 < n ==> a[m] >= a[2 * i + 2])
      && (m != i ==> a[m] > a[i])
      && (m == 2 * i + 2 ==> a[m] > a[2 * i + 1])
  {
  }

  /** One sift step keeps the repair condition: after exchanging `a[i]`
      with the larger child `m`, the heap can fail only at `m`, and `m`'s
      new parent covers `m`'s children. */
  lemma SiftKeeps(a: seq<int>, lo: nat, i: nat, n: nat)
    requires lo <= i < n <= |a|
    requires HeapBut(a, lo, i, n) && ParentCovers(a, lo, i, n)
    requires Largest(a, i, n).largest != i
    ensures var m := Largest(a, i, n).largest;
      HeapBut(Swapped(a, i, m), lo, m, n) && ParentCovers(Swapped(a, i, m), lo, m, n)
  {
    var m := Largest(a, i, n).largest;
    LargestIsMax(a, i, n);
    SiftKeepsHeap(a, lo, i, m, n);
    SiftKeepsCover(a, lo, i, m, n);
  }

  lemma SiftKeepsHeap(a: seq<int>, lo: nat, i: nat, m: nat, n: nat)
    requires lo <= i < m < n <= |a| && Parent(m) == i
    requires HeapBut(a, lo, i, n) && ParentCovers(a, lo, i, n)
    requires a[m] >= a[i] && (2 * i + 1 < n ==> a[m] >= a[2 * i + 1]) && (2 * i + 2 < n ==> a[m] >= a[2 * i + 2])
    ensures HeapBut(Swapped(a, i, m), lo, m, n)
  {
    var b := Swapped(a, i, m);
    forall k | 0 < k < n && lo <= Parent(k) && Parent(k) != m
      ensures b[Parent(k)] >= b[k]
    {
      var p := Parent(k);
      if p != i && k == i {
        assert b[p] == a[p] && b[k] == a[m];
        assert a[Parent(i)] >= a[m];
      }
    }
  }

  lemma SiftKeepsCover(a: seq<int>, lo: nat, i: nat, m: nat, n: nat)
    requires lo <= i < m < n <= |a| && Parent(m) == i
    requires HeapBut(a, lo, i, n)
    ensures ParentCovers(Swapped(a, i, m), lo, m, n)
  {
    var b := Swapped(a, i, m);
    forall k | 0 < k < n && Parent(k) == m
      ensures b[i] >= b[k]
    {
      assert a[Parent(k)] >= a[k];
    }
  }

  /** Sifting down at `i` turns "a heap except at `i`" into a heap. */
  lemma {:induction false} HeapifyRestores(a: seq<int>, lo: nat, i: nat, n: nat)
    requires lo <= i < n <= |a|
    requires HeapBut(a, lo, i, n) && ParentCovers(a, lo, i, n)
    ensures Heap(Heapify(a, i, n).final, lo, n)
    decreases n - i
  {
    var m := Largest(a, i, n).largest;
    LargestIsMax(a, i, n);
    if m != i {
      var b := Swapped(a, i, m);
      SiftKeeps(a, lo, i, n);
      HeapifyRestores(b, lo, m, n);
      assert Heapify(a, i, n).final == Heapify(b, m, n).final;
    } else {
      forall k | 0 < k < n && lo <= Parent(k)
        ensures a[Parent(k)] >= a[k]
      {
      }
    }
  }

  /** `heapify(i, n)` only rearranges `i .. n-1`. */
  lemma {:induction false} HeapifyPermutes(a: seq<int>, i: nat, n: nat)
    requires i < n <= |a|
    ensures Permutes(a, Heapify(a, i, n).final, i, n)
    decreases n - i
  {
    var m := Largest(a, i, n).largest;
    if m != i {
      var b := Swapped(a, i, m);
      var f := Heapify(b, m, n).final;
      SwapPermutes(a, i, m, i, n);
      HeapifyPermutes(b, m, n);
      PermutesWiden(b, f, m, n, i, n);
      PermutesTrans(a, b, f, i, n);
      assert Heapify(a, i, n).final == f;
    } else {
      PermutesRefl(a, i, n);
    }
  }

  /** `heapify(i, n)` leaves the array as it is, and yields no `swap`,
      exactly when no child of `i` inside the heap is strictly larger than
      `a[i]`. */
  lemma HeapifyQuiet(a: seq<int>, i: nat, n: nat)
    requires i < n <= |a|
    ensures Count(Heapify(a, i, n).steps, Swap) == 0 <==>
      forall k :: 0 < k < n && Parent(k) == i ==> a[k] <= a[i]
    ensures (forall k :: 0 < k < n && Parent(k) == i ==> a[k] <= a[i]) ==> Heapify(a, i, n).final == a
  {
    var c := Largest(a, i, n);
    LargestIsMax(a, i, n);
    LargestFaithful(a, i, n);
    if c.largest != i {
      var b := Swapped(a, i, c.largest);
      var rest := Heapify(b, c.largest, n);
      CountAppend(c.steps, [SwapStep(i, c.largest, b)] + rest.steps, Swap);
      CountPrepend(SwapStep(i, c.largest, b), rest.steps, Swap);
      assert Parent(c.largest) == i;
    } else {
      forall k | 0 < k < n && Parent(k) == i
        ensures a[k] <= a[i]
      {
      }
    }
  }

  /** A heap's root is its largest element. */
  lemma {:induction false} HeapRootMax(a: seq<int>, n: int, k: nat)
    requires Heap(a, 0, n) && k < n
    ensures a[k] <= a[0]
  {
    if k > 0 {
      HeapRootMax(a, n, Parent(k));
    }
  }

  // ---------------------------------------------------------------------
  // Building the heap

  /** Heapifying from `i` down to 0, with everything from `i + 1` on
      already a heap, makes the whole array a heap. */
  lemma {:induction false} BuildHeap(a: seq<int>, i: int, lo: nat)
    requires -1 <= i < |a| && lo == i + 1 && Heap(a, lo, |a|)
    ensures Heap(Build(a, i).final, 0, |a|)
    decreases lo
  {
    if i >= 0 {
      var h, i' := Heapify(a, i, |a|), i - 1;
      HeapifyRestores(a, i, i, |a|);
      BuildHeap(h.final, i', i);
    }
  }

  lemma {:induction false} BuildPermutes(a: seq<int>, i: int)
    requires -1 <= i < |a|
    ensures Permutes(a, Build(a, i).final, 0, |a|)
    decreases i + 1
  {
    if i >= 0 {
      var h := Heapify(a, i, |a|);
      HeapifyPermutes(a, i, |a|);
      PermutesWiden(a, h.final, i, |a|, 0, |a|);
      BuildPermutes(h.final, i - 1);
      PermutesTrans(a, h.final, Build(h.final, i - 1).final, 0, |a|);
    } else {
      PermutesRefl(a, 0, |a|);
    }
  }

  /** No parent lies at or beyond `floor(length / 2)`, so the loop may
      start just below it. */
  lemma LeavesAreHeaps(a: seq<int>)
    ensures Heap(a, |a| / 2, |a|)
  {
    forall k | 0 < k < |a| && |a| / 2 <= Parent(k)
      ensures false
    {
    }
  }

  // ---------------------------------------------------------------------
  // Extracting the maximum

  /** The root, moved behind a heap of `a[0 .. i]` that sits in front of a
      placed suffix, extends the placed suffix by one position; sifting the
      new root down keeps it. */
  lemma {:induction false} ExtractSorts(a: seq<int>, i: int, n: nat)
    requires -1 <= i < |a| && n == i + 1 && Heap(a, 0, n) && SuffixPlaced(a, n)
    ensures Sorted(Extract(a, i).final)
    decreases n
  {
    if i > 0 {
      var b := Swapped(a, 0, i);
      var h, i' := Heapify(b, 0, i), i - 1;
      ExtractUnfold(a, i, b, h, i');
      RootSwapPlaces(a, i, n);
      HeapifyRestores(b, 0, 0, i);
      HeapifyPermutes(b, 0, i);
      PlacedSurvives(b, h.final, i);
      ExtractSorts(h.final, i', i);
    } else {
      SuffixPlacedSorted(a, n);
    }
  }

  /** One exchange and sift, then the loop from `i' = i - 1`. */
  lemma ExtractUnfold(a: seq<int>, i: nat, b: seq<int>, h: Run, i': int)
    requires 0 < i < |a| && b == Swapped(a, 0, i) && h == Heapify(b, 0, i) && i' == i - 1
    ensures Extract(a, i) == Prepend(SwapStep(0, i, b), Then(h, Extract(h.final, i')))
  {
  }

  /** Exchanging the root of a heap of `a[0 .. i]` with `a[i]` places one
      more element and leaves a heap of `a[0 .. i-1]` except at the root. */
  lemma RootSwapPlaces(a: seq<int>, i: nat, n: nat)
    requires 0 < i < |a| && n == i + 1 && Heap(a, 0, n) && SuffixPlaced(a, n)
    ensures SuffixPlaced(Swapped(a, 0, i), i)
    ensures HeapBut(Swapped(a, 0, i), 0, 0, i) && ParentCovers(Swapped(a, 0, i), 0, 0, i)
  {
    var b := Swapped(a, 0, i);
    forall k | 0 <= k <= i
      ensures a[k] <= a[0]
    {
      HeapRootMax(a, n, k);
    }
    forall k | 0 < k < i && 0 <= Parent(k) && Parent(k) != 0
      ensures b[Parent(k)] >= b[k]
    {
    }
  }

  /** Rearranging the front `a[0 .. i-1]` keeps a placed suffix from `i`. */
  lemma PlacedSurvives(b: seq<int>, c: seq<int>, i: nat)
    requires 0 < i <= |b| && SuffixPlaced(b, i) && Permutes(b, c, 0, i)
    ensures SuffixPlaced(c, i)
  {
    if i < |b| {
      assert AtMost(b[0..i], b[i]);
      BoundsSurvive(b[0..i], c[0..i], b[i]);
      forall p, q | 0 <= p < i <= q < |c|
        ensures c[p] <= c[q]
      {
        assert c[p] == c[0..i][p];
      }
    }
  }

  lemma {:induction false} ExtractPermutes(a: seq<int>, i: int)
    requires -1 <= i < |a|
    ensures Permutes(a, Extract(a, i).final, 0, |a|)
    decreases i
  {
    if i > 0 {
      var b := Swapped(a, 0, i);
      var h, i' := Heapify(b, 0, i), i - 1;
      ExtractUnfold(a, i, b, h, i');
      SwapPermutes(a, 0, i, 0, |a|);
      HeapifyPermutes(b, 0, i);
      PermutesWiden(b, h.final, 0, i, 0, |a|);
      ExtractPermutes(h.final, i');
      PermutesTrans(a, b, h.final, 0, |a|);
      PermutesTrans(a, h.final, Extract(h.final, i').final, 0, |a|);
    } else {
      PermutesRefl(a, 0, |a|);
    }
  }

  // ---------------------------------------------------------------------
  // The events

  /** The comparisons of `heapify` are yielded on the array they inspect
      and change nothing. */
  lemma LargestFaithful(a: seq<int>, i: nat, n: nat)
    requires i < n <= |a|
    ensures Faithful(a, Largest(a, i, n).steps) && Last(a, Largest(a, i, n).steps) == a
  {
    assert Inspects(a, Largest(a, i, n).steps);
    InspectsFaithful(a, Largest(a, i, n).steps);
  }

  lemma {:induction false} HeapifyFaithful(a: seq<int>, i: nat, n: nat)
    requires i < n <= |a|
    ensures Faithful(a, Heapify(a, i, n).steps) && FinalShown(a, Heapify(a, i, n))
    decreases n - i
  {
    var c := Largest(a, i, n);
    LargestFaithful(a, i, n);
    if c.largest != i {
      var b := Swapped(a, i, c.largest);
      var w := SwapStep(i, c.largest, b);
      var rest := Heapify(b, c.largest, n);
      HeapifyFaithful(b, c.largest, n);
      FaithfulPrepend(a, w, rest.steps);
      FinalShownPrepend(a, w, rest);
      FaithfulThen(a, Run(c.steps, a), Prepend(w, rest));
    }
  }

  lemma {:induction false} BuildFaithful(a: seq<int>, i: int)
    requires -1 <= i < |a|
    ensures Faithful(a, Build(a, i).steps) && FinalShown(a, Build(a, i))
    decreases i + 1
  {
    if i >= 0 {
      var h := Heapify(a, i, |a|);
      HeapifyFaithful(a, i, |a|);
      BuildFaithful(h.final, i - 1);
      FaithfulThen(a, h, Build(h.final, i - 1));
    }
  }

  lemma {:induction false} ExtractFaithful(a: seq<int>, i: int)
    requires -1 <= i < |a|
    ensures Faithful(a, Extract(a, i).steps) && FinalShown(a, Extract(a, i))
    decreases i
  {
    if i > 0 {
      var b := Swapped(a, 0, i);
      var h, i' := Heapify(b, 0, i), i - 1;
      var rest := Extract(h.final, i');
      ExtractUnfold(a, i, b, h, i');
      HeapifyFaithful(b, 0, i);
      ExtractFaithful(h.final, i');
      FaithfulThen(b, h, rest);
      FaithfulPrepend(a, SwapStep(0, i, b), Then(h, rest).steps);
      FinalShownPrepend(a, SwapStep(0, i, b), Then(h, rest));
    }
  }

  /** Draining `heapSort` leaves the array sorted and a permutation of its
      starting contents, every event announces its change, and an array of
      length 0 or 1 yields no events. */
  lemma SortCorrect(a: seq<int>)
    ensures Sorted(Sort(a).final)
    ensures multiset(Sort(a).final) == multiset(a)
    ensures Faithful(a, Sort(a).steps) && FinalShown(a, Sort(a))
    ensures |a| <= 1 ==> Sort(a).steps == []
  {
    SortSorts(a);
    SortPermutes(a);
    SortFaithful(a);
  }

  lemma SortSorts(a: seq<int>)
    ensures Sorted(Sort(a).final)
  {
    var m, n := |a| / 2 - 1, |a| - 1;
    var b := Build(a, m);
    SortUnfold(a, m, n, b);
    LeavesAreHeaps(a);
    BuildHeap(a, m, |a| / 2);
    ExtractSorts(b.final, n, |a|);
  }

  lemma SortPermutes(a: seq<int>)
    ensures multiset(Sort(a).final) == multiset(a)
  {
    var m, n := |a| / 2 - 1, |a| - 1;
    var b := Build(a, m);
    var f := Extract(b.final, n).final;
    SortUnfold(a, m, n, b);
    BuildPermutes(a, m);
    ExtractPermutes(b.final, n);
    PermutesTrans(a, b.final, f, 0, |a|);
    PermutesWhole(a, f, 0, |a|);
  }

  lemma SortFaithful(a: seq<int>)
    ensures Faithful(a, Sort(a).steps) && FinalShown(a, Sort(a))
  {
    var m, n := |a| / 2 - 1, |a| - 1;
    var b := Build(a, m);
    SortUnfold(a, m, n, b);
    BuildFaithful(a, m);
    ExtractFaithful(b.final, n);
    FaithfulThen(a, b, Extract(b.final, n));
  }

  // ---------------------------------------------------------------------
  // Comparisons are reported only when they succeed

  /** A `compare` event names two positions of its snapshot, the first
      holding a strictly larger value than the second. */
  predicate Strict(s: Step) {
    var ix := s.event.indices;
    s.event.kind == Compare ==>
      |ix| == 2 && ix[0] < |s.snapshot| && ix[1] < |s.snapshot| && s.snapshot[ix[0]] > s.snapshot[ix[1]]
  }

  predicate AllStrict(steps: seq<Step>) {
    forall k :: 0 <= k < |steps| ==> Strict(steps[k])
  }

  lemma AllStrictAppend(s1: seq<Step>, s2: seq<Step>)
    requires AllStrict(s1) && AllStrict(s2)
    ensures AllStrict(s1 + s2)
  {
    forall k | 0 <= k < |s1 + s2|
      ensures Strict((s1 + s2)[k])
    {
      if k >= |s1| {
        assert (s1 + s2)[k] == s2[k - |s1|];
      }
    }
  }

  lemma {:induction false} HeapifyStrict(a: seq<int>, i: nat, n: nat)
    requires i < n <= |a|
    ensures AllStrict(Heapify(a, i, n).steps)
    decreases n - i
  {
    var c := Largest(a, i, n);
    assert AllStrict(c.steps);
    if c.largest != i {
      var b := Swapped(a, i, c.largest);
      var rest := Heapify(b, c.largest, n);
      HeapifyStrict(b, c.largest, n);
      AllStrictAppend([SwapStep(i, c.largest, b)], rest.steps);
      AllStrictAppend(c.steps, [SwapStep(i, c.largest, b)] + rest.steps);
    }
  }

  lemma {:induction false} BuildStrict(a: seq<int>, i: int)
    requires -1 <= i < |a|
    ensures AllStrict(Build(a, i).steps)
    decreases i + 1
  {
    if i >= 0 {
      var h := Heapify(a, i, |a|);
      HeapifyStrict(a, i, |a|);
      BuildStrict(h.final, i - 1);
      AllStrictAppend(h.steps, Build(h.final, i - 1).steps);
    }
  }

  lemma {:induction false} ExtractStrict(a: seq<int>, i: int)
    requires -1 <= i < |a|
    ensures AllStrict(Extract(a, i).steps)
    decreases i
  {
    if i > 0 {
      var b := Swapped(a, 0, i);
      var h, i' := Heapify(b, 0, i), i - 1;
      var rest := Extract(h.final, i');
      ExtractUnfold(a, i, b, h, i');
      HeapifyStrict(b, 0, i);
      ExtractStrict(h.final, i');
      AllStrictAppend(h.steps, rest.steps);
      AllStrictAppend([SwapStep(0, i, b)], h.steps + rest.steps);
    }
  }

  /** Every `compare` event heap sort yields shows its first position
      holding a strictly larger value than its second: a comparison that
      fails is never shown. */
  lemma SortStrict(a: seq<int>)
    ensures AllStrict(Sort(a).steps)
  {
    var m, n := |a| / 2 - 1, |a| - 1;
    var b := Build(a, m);
    SortUnfold(a, m, n, b);
    BuildStrict(a, m);
    ExtractStrict(b.final, n);
    AllStrictAppend(b.steps, Extract(b.final, n).steps);
  }

  // ---------------------------------------------------------------------
  // All elements equal

  lemma HeapifyAllEqual(a: seq<int>, i: nat, n: nat, v: int)
    requires i < n <= |a| && AllEqual(a, v)
    ensures Heapify(a, i, n) == Run([], a)
  {
  }

  lemma {:induction false} BuildAllEqual(a: seq<int>, i: int, v: int)
    requires -1 <= i < |a| && AllEqual(a, v)
    ensures Build(a, i) == Run([], a)
    decreases i + 1
  {
    if i >= 0 {
      HeapifyAllEqual(a, i, |a|, v);
      BuildAllEqual(a, i - 1, v);
    }
  }

  /** The root exchanges `swap [0, i]`, `swap [0, i-1]`, ..., `swap [0, 1]`,
      each shown on `a`. */
  function RootSwaps(a: seq<int>, i: int): (r: seq<Step>)
    requires i < |a|
    ensures |r| == if i > 0 then i else 0
    decreases i
  {
    if i > 0 then [SwapStep(0, i, a)] + RootSwaps(a, i - 1) else []
  }

  lemma {:induction false} ExtractAllEqual(a: seq<int>, i: int, v: int)
    requires -1 <= i < |a| && AllEqual(a, v)
    ensures Extract(a, i) == Run(RootSwaps(a, i), a)
    decreases i
  {
    if i > 0 {
      var i' := i - 1;
      assert Swapped(a, 0, i) == a;
      HeapifyAllEqual(a, 0, i, v);
      ExtractUnfold(a, i, a, Run([], a), i');
      ExtractAllEqual(a, i', v);
      assert [] + RootSwaps(a, i') == RootSwaps(a, i');
      assert RootSwaps(a, i) == [SwapStep(0, i, a)] + RootSwaps(a, i');
    }
  }

  /** On an array of equal values heap sort yields no `compare` at all (no
      child is ever strictly larger) and exactly the root exchanges
      `swap [0, n-1]`, ..., `swap [0, 1]`, none of which changes a value. */
  lemma SortAllEqual(a: seq<int>, v: int)
    requires AllEqual(a, v)
    ensures Sort(a).final == a
    ensures Sort(a).steps == RootSwaps(a, |a| - 1)
    ensures Count(Sort(a).steps, Compare) == 0
  {
    SortIsExtract(a, v);
    ExtractAllEqual(a, |a| - 1, v);
    RootSwapsCompare(a, |a| - 1);
  }

  /** On equal values the build phase is silent. */
  lemma SortIsExtract(a: seq<int>, v: int)
    requires AllEqual(a, v)
    ensures Sort(a) == Extract(a, |a| - 1)
  {
    var m, n := |a| / 2 - 1, |a| - 1;
    var b := Build(a, m);
    SortUnfold(a, m, n, b);
    BuildAllEqual(a, m, v);
    ThenSilent(b, Extract(a, n));
  }

  lemma {:induction false} RootSwapsCompare(a: seq<int>, i: int)
    requires i < |a|
    ensures Count(RootSwaps(a, i), Compare) == 0
    decreases i
  {
    if i > 0 {
      CountPrepend(SwapStep(0, i, a), RootSwaps(a, i - 1), Compare);
      RootSwapsCompare(a, i - 1);
    }
  }
}
