/** Bubble sort as the visualiser's generator runs it: `n - 1` passes, pass
    `i` comparing every adjacent pair below `n - i - 1` and swapping the
    pairs found out of order. */
module BubbleSort {
  import opened Arrays
  import opened Traces

  /** One iteration of the inner loop at `j`: yield `compare [j, j+1]`, and
      if `a[j] > a[j+1]` exchange the two and yield `swap [j, j+1]`. */
  function Visit(a: seq<int>, j: nat): (r: Run)
    requires j + 1 < |a|
    ensures |r.final| == |a|
  {
    var c := CompareStep(j, j + 1, a);
    if a[j] > a[j + 1] then
      var b := Swapped(a, j, j + 1);
      Run([c, SwapStep(j, j + 1, b)], b)
    else
      Run([c], a)
  }

  /** The inner loop of pass `i`, from index `j` on, while `j < n - i - 1`. */
  function Pass(a: seq<int>, i: nat, j: nat): (r: Run)
    requires i + 1 < |a| && j < |a| - i
    ensures |r.final| == |a|
    decreases |a| - i - j
  {
    if j < |a| - i - 1 then
      var v := Visit(a, j);
      Then(v, Pass(v.final, i, j + 1))
    else
      Run([], a)
  }

  /** The outer loop, from pass `i` on, while `i < n - 1`. */
  function Passes(a: seq<int>, i: nat): (r: Run)
    ensures |r.final| == |a|
    decreases |a| - i
  {
    if i + 1 < |a| then
      var p := Pass(a, i, 0);
      Then(p, Passes(p.final, i + 1))
    else
      Run([], a)
  }

  /** The `bubbleSort` generator drained to exhaustion. */
  function Sort(a: seq<int>): (r: Run)
    ensures |r.final| == |a|
  {
    Passes(a, 0)
  }

  /** One iteration rearranges only the pair `[j, j+1]`, leaves the larger
      of the two at `j + 1`, and shows its final array as its last event. */
  lemma VisitOrders(a: seq<int>, j: nat)
    requires j + 1 < |a|
    ensures Permutes(a, Visit(a, j).final, j, j + 2)
    ensures Visit(a, j).final[j] <= Visit(a, j).final[j + 1]
    ensures a[j] <= Visit(a, j).final[j + 1]
    ensures FinalShown(a, Visit(a, j))
  {
    if a[j] > a[j + 1] {
      SwapPermutes(a, j, j + 1, j, j + 2);
    }
  }

  /** A pass carries the largest element of the unsorted prefix `..m`,
      `m = n - i`, to its last position `m - 1`, only rearranging that
      prefix. */
  lemma {:induction false} PassCarriesMax(a: seq<int>, i: nat, j: nat, m: nat)
    requires i + 1 < |a| && j < |a| - i && m == |a| - i
    requires forall k :: 0 <= k < j ==> a[k] <= a[j]
    ensures Permutes(a, Pass(a, i, j).final, 0, m)
    ensures forall k :: 0 <= k < m - 1 ==> Pass(a, i, j).final[k] <= Pass(a, i, j).final[m - 1]
    decreases m - j
  {
    if j < m - 1 {
      var v := Visit(a, j);
      var b, j' := v.final, j + 1;
      VisitOrders(a, j);
      CarryStep(a, b, j, j');
      PassCarriesMax(b, i, j', m);
      var c := Pass(b, i, j').final;
      assert Pass(a, i, j).final == c;
      PermutesWiden(a, b, j, j + 2, 0, m);
      PermutesTrans(a, b, c, 0, m);
    } else {
      PermutesRefl(a, 0, m);
    }
  }

  /** After the iteration at `j`, the element at `j' = j + 1` is the
      largest so far. */
  lemma CarryStep(a: seq<int>, b: seq<int>, j: nat, j': nat)
    requires j' == j + 1 && j' < |a| && Permutes(a, b, j, j + 2)
    requires forall k :: 0 <= k < j ==> a[k] <= a[j]
    requires b[j] <= b[j'] && a[j] <= b[j']
    ensures forall k :: 0 <= k < j' ==> b[k] <= b[j']
  {
  }

  lemma {:induction false} PassFinalShown(a: seq<int>, i: nat, j: nat)
    requires i + 1 < |a| && j < |a| - i
    ensures FinalShown(a, Pass(a, i, j))
    decreases |a| - i - j
  {
    if j < |a| - i - 1 {
      var v := Visit(a, j);
      VisitOrders(a, j);
      PassFinalShown(v.final, i, j + 1);
      FinalShownThen(a, v, Pass(v.final, i, j + 1));
    }
  }

  /** Each pass extends the sorted, settled suffix by one position, so the
      remaining passes leave the array sorted and a permutation of itself.
      `m = n - i` positions are still unsorted. */
  lemma {:induction false} PassesSort(a: seq<int>, i: nat, m: nat)
    requires i <= |a| && m == |a| - i && SuffixPlaced(a, m)
    ensures Sorted(Passes(a, i).final)
    ensures multiset(Passes(a, i).final) == multiset(a)
    ensures FinalShown(a, Passes(a, i))
    decreases m
  {
    if i + 1 < |a| {
      var p := Pass(a, i, 0);
      var b, i', m' := p.final, i + 1, m - 1;
      PassCarriesMax(a, i, 0, m);
      PassFinalShown(a, i, 0);
      GrowSuffix(a, b, m, m');
      PassesSort(b, i', m');
      PassesUnfold(a, i, b, i');
      FinalShownThen(a, p, Passes(b, i'));
    } else {
      SuffixPlacedSorted(a, m);
    }
  }

  /** A pass that rearranges the unsorted prefix `..m` and leaves its
      largest element last grows the settled suffix to `m' = m - 1 ..`. */
  lemma GrowSuffix(a: seq<int>, b: seq<int>, m: nat, m': nat)
    requires m == m' + 1 && SuffixPlaced(a, m) && Permutes(a, b, 0, m)
    requires forall k :: 0 <= k < m - 1 ==> b[k] <= b[m - 1]
    ensures SuffixPlaced(b, m') && multiset(b) == multiset(a)
  {
    PermutesWhole(a, b, 0, m);
    assert a[0..m] == a[..m] && b[0..m] == b[..m];
    forall q | m <= q < |a|
      ensures AtMost(b[..m], b[q])
    {
      assert AtMost(a[..m], a[q]);
      BoundsSurvive(a[..m], b[..m], a[q]);
    }
    forall x, y | 0 <= x < m' <= y < |a|
      ensures b[x] <= b[y]
    {
      if y >= m {
        assert b[..m][x] == b[x];
      }
    }
    forall x, y | m' <= x < y < |a|
      ensures b[x] <= b[y]
    {
      if x == m' {
        assert b[..m][x] == b[x];
      }
    }
  }

  /** Draining `bubbleSort` leaves the array sorted and a permutation of its
      starting contents; an array of length 0 or 1 yields no events. */
  lemma SortCorrect(a: seq<int>)
    ensures Sorted(Sort(a).final)
    ensures multiset(Sort(a).final) == multiset(a)
    ensures FinalShown(a, Sort(a))
    ensures |a| <= 1 ==> Sort(a).steps == []
  {
    PassesSort(a, 0, |a|);
  }

  lemma VisitCompares(a: seq<int>, j: nat)
    requires j + 1 < |a|
    ensures Count(Visit(a, j).steps, Compare) == 1
  {
    var v := Visit(a, j);
    if a[j] > a[j + 1] {
      CountPrepend(v.steps[0], [v.steps[1]], Compare);
      CountPrepend(v.steps[1], [], Compare);
      assert v.steps == [v.steps[0]] + [v.steps[1]];
    } else {
      CountPrepend(v.steps[0], [], Compare);
      assert v.steps == [v.steps[0]] + [];
    }
  }

  /** A pass from `j` yields one comparison for every `j' < n - i - 1` from
      `j` on, whatever the values. */
  lemma {:induction false} PassCompares(a: seq<int>, i: nat, j: nat, m: nat)
    requires i + 1 < |a| && j < |a| - i && m == |a| - i
    ensures Count(Pass(a, i, j).steps, Compare) == m - 1 - j
    decreases m - j
  {
    if j < m - 1 {
      var v := Visit(a, j);
      var b, j' := v.final, j + 1;
      var rest := Pass(b, i, j').steps;
      VisitCompares(a, j);
      PassCompares(b, i, j', m);
      CountAppend(v.steps, rest, Compare);
      assert Pass(a, i, j).steps == v.steps + rest;
    }
  }

  /** One pass, then the passes after it. */
  lemma PassesUnfold(a: seq<int>, i: nat, b: seq<int>, i': nat)
    requires i + 1 < |a| && i' == i + 1 && b == Pass(a, i, 0).final
    ensures Passes(a, i) == Then(Pass(a, i, 0), Passes(b, i'))
  {
  }

  /** The passes from `i` on, `r = n - i` positions still unsorted. */
  lemma {:induction false} PassesCompares(a: seq<int>, i: nat, r: nat)
    requires i <= |a| && r == |a| - i
    ensures Count(Passes(a, i).steps, Compare) == Pairs(r)
    decreases r
  {
    if i + 1 < |a| {
      var p := Pass(a, i, 0);
      var b, i', r' := p.final, i + 1, r - 1;
      var rest := Passes(b, i').steps;
      PassCompares(a, i, 0, r);
      PassesCompares(b, i', r');
      CountAppend(p.steps, rest, Compare);
      PassesUnfold(a, i, b, i');
      PairsStep(r, r');
    } else {
      assert Pairs(r) == 0 by {
        if r == 1 {
          assert Pairs(1) == 0 + Pairs(0);
        }
      }
    }
  }

  /** `bubbleSort` yields exactly n(n-1)/2 comparisons on every input of
      length n: it never stops early on sorted input. */
  lemma SortCompares(a: seq<int>)
    ensures 2 * Count(Sort(a).steps, Compare) == |a| * (|a| - 1)
  {
    PassesCompares(a, 0, |a|);
    PairsClosedForm(|a|);
  }

  /** Step `s` compares an adjacent pair `[j, j+1]` that is out of order in
      the array at the moment of the comparison. */
  predicate OutOfOrder(s: Step) {
    var ix := s.event.indices;
    && s.event.kind == Compare
    && |ix| == 2 && ix[1] == ix[0] + 1 && ix[1] < |s.snapshot|
    && s.snapshot[ix[0]] > s.snapshot[ix[1]]
  }

  /** Step `k` is a swap exactly when step `k - 1` compared an out-of-order
      pair, and then it exchanges that same pair. */
  predicate AnswersAt(steps: seq<Step>, k: nat)
    requires k < |steps|
  {
    && (steps[k].event.kind == Swap <==> k > 0 && OutOfOrder(steps[k - 1]))
    && (steps[k].event.kind == Swap ==> k > 0 && steps[k].event.indices == steps[k - 1].event.indices)
  }

  /** A swap occurs exactly right after a comparison that found its pair out
      of order, and exchanges that same pair; no trace ends on such a
      comparison. */
  predicate SwapsAnswerCompares(steps: seq<Step>) {
    && (forall k :: 0 <= k < |steps| ==> AnswersAt(steps, k))
    && (|steps| > 0 ==> !OutOfOrder(steps[|steps| - 1]))
  }

  lemma SwapsAnswerComparesAppend(s1: seq<Step>, s2: seq<Step>)
    requires SwapsAnswerCompares(s1) && SwapsAnswerCompares(s2)
    ensures SwapsAnswerCompares(s1 + s2)
  {
    var steps := s1 + s2;
    forall k | 0 <= k < |steps|
      ensures AnswersAt(steps, k)
    {
      if k < |s1| {
        assert AnswersAt(s1, k);
        assert steps[k] == s1[k];
        if k > 0 {
          assert steps[k - 1] == s1[k - 1];
        }
      } else {
        assert AnswersAt(s2, k - |s1|);
        assert steps[k] == s2[k - |s1|];
        if k > |s1| {
          assert steps[k - 1] == s2[k - 1 - |s1|];
        } else if k > 0 {
          assert steps[k - 1] == s1[|s1| - 1];
        }
      }
    }
    if |s2| == 0 {
      assert steps == s1;
    } else {
      assert steps[|steps| - 1] == s2[|s2| - 1];
    }
  }

  lemma VisitAnswers(a: seq<int>, j: nat)
    requires j + 1 < |a|
    ensures SwapsAnswerCompares(Visit(a, j).steps)
  {
    var steps := Visit(a, j).steps;
    assert AnswersAt(steps, 0);
    if a[j] > a[j + 1] {
      assert AnswersAt(steps, 1);
    }
  }

  lemma {:induction false} PassSwapsAnswerCompares(a: seq<int>, i: nat, j: nat)
    requires i + 1 < |a| && j < |a| - i
    ensures SwapsAnswerCompares(Pass(a, i, j).steps)
    decreases |a| - i - j
  {
    if j < |a| - i - 1 {
      var v := Visit(a, j);
      VisitAnswers(a, j);
      PassSwapsAnswerCompares(v.final, i, j + 1);
      SwapsAnswerComparesAppend(v.steps, Pass(v.final, i, j + 1).steps);
    }
  }

  lemma {:induction false} PassesSwapsAnswerCompares(a: seq<int>, i: nat)
    ensures SwapsAnswerCompares(Passes(a, i).steps)
    decreases |a| - i
  {
    if i + 1 < |a| {
      var p := Pass(a, i, 0);
      PassSwapsAnswerCompares(a, i, 0);
      PassesSwapsAnswerCompares(p.final, i + 1);
      SwapsAnswerComparesAppend(p.steps, Passes(p.final, i + 1).steps);
    }
  }

  /** In a `bubbleSort` trace, `swap [j, j+1]` is yielded if and only if the
      event just before it was `compare [j, j+1]` on an array in which
      `array[j] > array[j+1]`. */
  lemma SortSwapsAnswerCompares(a: seq<int>)
    ensures SwapsAnswerCompares(Sort(a).steps)
  {
    PassesSwapsAnswerCompares(a, 0);
  }

  lemma VisitFaithful(a: seq<int>, j: nat)
    requires j + 1 < |a|
    ensures Faithful(a, Visit(a, j).steps)
  {
    var v := Visit(a, j);
    if a[j] > a[j + 1] {
      FaithfulPrepend(a, v.steps[0], [v.steps[1]]);
      assert v.steps == [v.steps[0]] + [v.steps[1]];
    } else {
      FaithfulPrepend(a, v.steps[0], []);
      assert v.steps == [v.steps[0]] + [];
    }
  }

  lemma {:induction false} PassFaithful(a: seq<int>, i: nat, j: nat)
    requires i + 1 < |a| && j < |a| - i
    ensures Faithful(a, Pass(a, i, j).steps)
    decreases |a| - i - j
  {
    if j < |a| - i - 1 {
      var v := Visit(a, j);
      VisitFaithful(a, j);
      VisitOrders(a, j);
      PassFaithful(v.final, i, j + 1);
      FaithfulAppend(a, v.steps, Pass(v.final, i, j + 1).steps);
    }
  }

  lemma {:induction false} PassesFaithful(a: seq<int>, i: nat)
    ensures Faithful(a, Passes(a, i).steps)
    decreases |a| - i
  {
    if i + 1 < |a| {
      var p := Pass(a, i, 0);
      PassFaithful(a, i, 0);
      PassFinalShown(a, i, 0);
      PassesFaithful(p.final, i + 1);
      FaithfulAppend(a, p.steps, Passes(p.final, i + 1).steps);
    }
  }

  /** Every event of a `bubbleSort` trace names exactly the change it made. */
  lemma SortFaithful(a: seq<int>)
    ensures Faithful(a, Sort(a).steps)
  {
    PassesFaithful(a, 0);
  }
}
