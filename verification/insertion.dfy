/** Insertion sort as the visualiser's generator runs it: pass `i` takes
    `key = a[i]`, shifts every larger element of the sorted prefix one place
    up (announcing each shift as a comparison), writes `key` into the hole
    and announces that write as an insert. */
module InsertionSort {
  import opened Arrays
  import opened Traces

  /** The inner `while` loop with `j` counting down: while `j >= 0` and
      `a[j] > key`, yield `compare [j, j+1]` and copy `a[j]` up into
      `j + 1`; then write `key` into `j + 1` and yield `insert [j + 1]`.
      A comparison that fails ends the loop without an event. */
  function Shift(a: seq<int>, key: int, j: int): (r: Run)
    requires -1 <= j < |a| - 1
    ensures |r.final| == |a|
    decreases j + 1
  {
    if j >= 0 && a[j] > key then
      Prepend(CompareStep(j, j + 1, a), Shift(a[j + 1 := a[j]], key, j - 1))
    else
      var b := a[j + 1 := key];
      Run([InsertStep(j + 1, b)], b)
  }

  /** Pass `i`: `key = a[i]`, `j = i - 1`. */
  function Pass(a: seq<int>, i: nat): (r: Run)
    requires 1 <= i < |a|
    ensures |r.final| == |a|
  {
    Shift(a, a[i], i - 1)
  }

  /** The outer loop, from pass `i` on, while `i < n`. */
  function Passes(a: seq<int>, i: nat): (r: Run)
    requires 1 <= i
    ensures |r.final| == |a|
    decreases |a| - i
  {
    if i < |a| then
      var p := Pass(a, i);
      Then(p, Passes(p.final, i + 1))
    else
      Run([], a)
  }

  /** The `insertionSort` generator drained to exhaustion. */
  function Sort(a: seq<int>): (r: Run)
    ensures |r.final| == |a|
  {
    Passes(a, 1)
  }

  /** One pass, then the outer loop from `i' = i + 1` on `b`, the array
      the pass leaves. */
  lemma PassesUnfold(a: seq<int>, i: nat, b: seq<int>, i': nat)
    requires 1 <= i < |a| && b == Pass(a, i).final && i' == i + 1
    ensures Passes(a, i) == Then(Pass(a, i), Passes(b, i'))
  {
  }

  // ---------------------------------------------------------------------
  // Reference definitions

  /** The first `m` elements of `a` are in non-decreasing order. */
  predicate SortedPrefix(a: seq<int>, m: int) {
    0 <= m <= |a| && forall p, q :: 0 <= p < q < m ==> a[p] <= a[q]
  }

  /** `a` with `a[i]` taken out and put back in at position `h <= i`. */
  function Inserted(a: seq<int>, h: nat, i: nat): (r: seq<int>)
    requires h <= i < |a|
    ensures |r| == |a|
  {
    a[..h] + [a[i]] + a[h..i] + a[i + 1..]
  }

  /** Where `a[i]` belongs below `h`: step down past every element greater
      than it, stopping at the first one that is not. */
  function Slot(a: seq<int>, i: nat, h: nat): (r: nat)
    requires h <= i < |a|
    ensures r <= h
    decreases h
  {
    if h > 0 && a[h - 1] > a[i] then Slot(a, i, h - 1) else h
  }

  /** How many elements of `s` exceed `v`. */
  function Greater(s: seq<int>, v: int): nat {
    if |s| == 0 then 0
    else (if s[|s| - 1] > v then 1 else 0) + Greater(s[..|s| - 1], v)
  }

  /** For each position from `i` on, the number of earlier elements greater
      than the one there. */
  function InversionsFrom(a: seq<int>, i: nat): nat
    decreases |a| - i
  {
    if i < |a| then Greater(a[..i], a[i]) + InversionsFrom(a, i + 1) else 0
  }

  /** The number of pairs `p < q` with `a[p] > a[q]`. */
  function Inversions(a: seq<int>): nat {
    InversionsFrom(a, 0)
  }

  // ---------------------------------------------------------------------
  // The inner loop

  /** The array while the loop of pass `i` has its hole at `h`: everything
      in `h .. i-1` copied one place up, the rest as it was. */
  function Shifted(a: seq<int>, h: nat, i: nat): (r: seq<int>)
    requires h <= i < |a|
  {
    seq(|a|, k requires 0 <= k < |a| => if h < k <= i then a[k - 1] else a[k])
  }

  /** The slot lies below every element of `a[slot..h]` greater than the
      key and just above one that is not. */
  lemma {:induction false} SlotBounds(a: seq<int>, i: nat, h: nat)
    requires h <= i < |a|
    ensures forall k :: Slot(a, i, h) <= k < h ==> a[k] > a[i]
    ensures Slot(a, i, h) == 0 || a[Slot(a, i, h) - 1] <= a[i]
    decreases h
  {
    if h > 0 && a[h - 1] > a[i] {
      SlotBounds(a, i, h - 1);
    }
  }

  /** One step of the loop that moves past `a[j] > key`, with `h = j + 1`
      and `j' = j - 1`. */
  lemma ShiftUnfold(s: seq<int>, key: int, j: nat, h: nat, j': int)
    requires j < |s| - 1 && h == j + 1 && j' == j - 1 && s[j] > key
    ensures Shift(s, key, j) == Prepend(CompareStep(j, h, s), Shift(s[h := s[j]], key, j'))
  {
  }

  /** Copying the element below the hole up into it moves the hole down. */
  lemma ShiftedStep(a: seq<int>, h: nat, i: nat, h': nat)
    requires h <= i < |a| && h == h' + 1
    ensures Shifted(a, h, i)[h := Shifted(a, h, i)[h']] == Shifted(a, h', i)
  {
  }

  /** With the hole at `i` nothing has moved yet. */
  lemma ShiftedNone(a: seq<int>, i: nat)
    requires i < |a|
    ensures Shifted(a, i, i) == a
  {
  }

  /** Filling the hole `h` with the key puts `a[i]` in at `h`. */
  lemma ShiftedFill(a: seq<int>, h: nat, i: nat)
    requires h <= i < |a|
    ensures Shifted(a, h, i)[h := a[i]] == Inserted(a, h, i)
  {
    InsertedAt(a, h, i);
  }

  /** Run from hole `h`, `j = h - 1`, the loop moves `a[i]` down to its
      slot below `h`, comparing once for every element it steps past, and
      ends with the one insert at the slot. */
  lemma {:induction false} ShiftMovesKey(a: seq<int>, i: nat, h: nat, j: int)
    requires h <= i < |a| && j == h - 1
    ensures Shift(Shifted(a, h, i), a[i], j).final == Inserted(a, Slot(a, i, h), i)
    ensures Count(Shift(Shifted(a, h, i), a[i], j).steps, Compare) == h - Slot(a, i, h)
    ensures Count(Shift(Shifted(a, h, i), a[i], j).steps, Insert) == 1
    ensures InsertPositions(Shift(Shifted(a, h, i), a[i], j).steps) == [Slot(a, i, h)]
    ensures FinalShown(Shifted(a, h, i), Shift(Shifted(a, h, i), a[i], j))
    decreases h
  {
    var s := Shifted(a, h, i);
    if h > 0 && s[j] > a[i] {
      var h', j' := j, j - 1;
      var c := CompareStep(j, h, s);
      ShiftUnfold(s, a[i], j, h, j');
      ShiftedStep(a, h, i, h');
      assert Slot(a, i, h) == Slot(a, i, h');
      var rest := Shift(Shifted(a, h', i), a[i], j').steps;
      ShiftMovesKey(a, i, h', j');
      CountPrepend(c, rest, Compare);
      CountPrepend(c, rest, Insert);
      assert ([c] + rest)[1..] == rest;
    } else {
      var b := s[h := a[i]];
      ShiftedFill(a, h, i);
      var w := InsertStep(h, b);
      assert Shift(s, a[i], j) == Run([w], b);
      CountPrepend(w, [], Compare);
      CountPrepend(w, [], Insert);
      assert [w] == [w] + [];
      assert [w][1..] == [];
    }
  }

  /** The inner `while` ends with its one insert: every event before the
      last is a compare, so the last event's position is the only insert
      position of the shift. */
  lemma {:induction false} ShiftEndsWithInsert(a: seq<int>, key: int, j: int)
    requires -1 <= j < |a| - 1
    ensures var r := Shift(a, key, j).steps;
      && |r| > 0
      && r[|r| - 1].event.kind == Insert
      && r[|r| - 1].event.extra == []
      && |r[|r| - 1].event.indices| == 1
      && InsertPositions(r) == [r[|r| - 1].event.indices[0]]
    decreases j + 1
  {
    if j >= 0 && a[j] > key {
      var h, j' := j + 1, j - 1;
      ShiftUnfold(a, key, j, h, j');
      var rest := Shift(a[h := a[j]], key, j');
      ShiftEndsWithInsert(a[h := a[j]], key, j');
      var r := [CompareStep(j, h, a)] + rest.steps;
      assert r[1..] == rest.steps;
      assert r[|r| - 1] == rest.steps[|rest.steps| - 1];
    }
  }

  /** Pass `i` in terms of the reference definitions. */
  lemma PassInserts(a: seq<int>, i: nat)
    requires 1 <= i < |a|
    ensures Pass(a, i).final == Inserted(a, Slot(a, i, i), i)
    ensures Count(Pass(a, i).steps, Compare) == i - Slot(a, i, i)
    ensures Count(Pass(a, i).steps, Insert) == 1
    ensures InsertPositions(Pass(a, i).steps) == [Slot(a, i, i)]
    ensures FinalShown(a, Pass(a, i))
    ensures Pass(a, i).steps[|Pass(a, i).steps| - 1].event == Event(Insert, [Slot(a, i, i)], [])
  {
    var j := i - 1;
    ShiftedNone(a, i);
    assert Pass(a, i) == Shift(Shifted(a, i, i), a[i], j);
    ShiftMovesKey(a, i, i, j);
    ShiftEndsWithInsert(a, a[i], j);
    var r := Pass(a, i).steps;
    assert r[|r| - 1].event.indices == [Slot(a, i, i)];
  }

  // ---------------------------------------------------------------------
  // Sortedness and permutation

  /** `Inserted` element by element. */
  lemma InsertedAt(a: seq<int>, h: nat, i: nat)
    requires h <= i < |a|
    ensures forall k :: 0 <= k < h ==> Inserted(a, h, i)[k] == a[k]
    ensures Inserted(a, h, i)[h] == a[i]
    ensures forall k :: h < k <= i ==> Inserted(a, h, i)[k] == a[k - 1]
    ensures forall k :: i < k < |a| ==> Inserted(a, h, i)[k] == a[k]
  {
    var x, y := a[..h] + [a[i]], a[h..i];
    assert Inserted(a, h, i) == x + y + a[i + 1..];
    forall k | 0 <= k < |a| && k != h
      ensures Inserted(a, h, i)[k] == (if k < h then a[k] else if k <= i then a[k - 1] else a[k])
    {
      if k <= h {
        assert Inserted(a, h, i)[k] == x[k];
      } else if k <= i {
        assert Inserted(a, h, i)[k] == y[k - h - 1];
      } else {
        assert Inserted(a, h, i)[k] == a[i + 1..][k - i - 1];
      }
    }
  }

  /** Moving `a[i]` down to `h` is moving it down to `h + 1` and then
      exchanging positions `h` and `h + 1`. */
  lemma InsertedOneFurther(a: seq<int>, h: nat, i: nat, h': nat)
    requires h < i < |a| && h' == h + 1
    ensures Inserted(a, h, i) == Swapped(Inserted(a, h', i), h, h')
  {
    InsertedAt(a, h, i);
    InsertedAt(a, h', i);
  }

  /** A rearrangement of `lo + 1 .. hi-1` followed by an exchange of `lo`
      and `lo + 1` is a rearrangement of `lo .. hi-1`. */
  lemma SwapBelow(a: seq<int>, b: seq<int>, lo: nat, lo': nat, hi: nat)
    requires Permutes(a, b, lo', hi) && lo' == lo + 1 && lo' < hi
    ensures Permutes(a, Swapped(b, lo, lo'), lo, hi)
  {
    PermutesWiden(a, b, lo', hi, lo, hi);
    SwapPermutes(b, lo, lo', lo, hi);
    PermutesTrans(a, b, Swapped(b, lo, lo'), lo, hi);
  }

  /** Moving `a[i]` down to `h` rearranges only `h .. i`. */
  lemma {:induction false} InsertedPermutes(a: seq<int>, h: nat, i: nat, hi: nat)
    requires h <= i < |a| && hi == i + 1
    ensures Permutes(a, Inserted(a, h, i), h, hi)
    decreases i - h
  {
    if h == i {
      InsertedAt(a, h, i);
      assert Inserted(a, h, i) == a;
      PermutesRefl(a, h, hi);
    } else {
      var h' := h + 1;
      InsertedPermutes(a, h', i, hi);
      InsertedOneFurther(a, h, i, h');
      SwapBelow(a, Inserted(a, h', i), h, h', hi);
    }
  }

  /** With `a[..i]` sorted, putting `a[i]` into its slot leaves `a[..i+1]`
      sorted. */
  lemma InsertedSorted(a: seq<int>, i: nat)
    requires 1 <= i < |a| && SortedPrefix(a, i)
    ensures SortedPrefix(Inserted(a, Slot(a, i, i), i), i + 1)
  {
    var h := Slot(a, i, i);
    var b := Inserted(a, h, i);
    SlotBounds(a, i, i);
    InsertedAt(a, h, i);
  }

  lemma {:induction false} PassesSort(a: seq<int>, i: nat)
    requires 1 <= i <= |a| && SortedPrefix(a, i)
    ensures Sorted(Passes(a, i).final)
    ensures multiset(Passes(a, i).final) == multiset(a)
    ensures FinalShown(a, Passes(a, i))
    decreases |a| - i
  {
    if i < |a| {
      var p, i' := Pass(a, i), i + 1;
      var h := Slot(a, i, i);
      PassesUnfold(a, i, p.final, i');
      PassInserts(a, i);
      InsertedPermutes(a, h, i, i');
      PermutesWhole(a, p.final, h, i');
      InsertedSorted(a, i);
      PassesSort(p.final, i');
      FinalShownThen(a, p, Passes(p.final, i'));
    }
  }

  /** Draining `insertionSort` leaves the array sorted and a permutation of
      its starting contents; an array of length 0 or 1 yields no events. */
  lemma SortCorrect(a: seq<int>)
    ensures Sorted(Sort(a).final)
    ensures multiset(Sort(a).final) == multiset(a)
    ensures FinalShown(a, Sort(a))
    ensures |a| <= 1 ==> Sort(a).steps == []
  {
    if |a| >= 1 {
      PassesSort(a, 1);
    }
  }

  // ---------------------------------------------------------------------
  // Counting events

  lemma {:induction false} PassesInserts(a: seq<int>, i: nat, r: nat)
    requires 1 <= i <= |a| && r == |a| - i
    ensures Count(Passes(a, i).steps, Insert) == r
    decreases r
  {
    if i < |a| {
      var p, i', r' := Pass(a, i), i + 1, r - 1;
      PassesUnfold(a, i, p.final, i');
      PassInserts(a, i);
      PassesInserts(p.final, i', r');
      CountAppend(p.steps, Passes(p.final, i').steps, Insert);
    }
  }

  /** Every pass ends with exactly one insert, so a run yields `n - 1`
      inserts. */
  lemma SortInserts(a: seq<int>)
    requires |a| >= 1
    ensures Count(Sort(a).steps, Insert) == |a| - 1
  {
    PassesInserts(a, 1, |a| - 1);
  }

  /** Counting the elements above `v` splits over concatenation. */
  lemma {:induction false} GreaterAppend(s: seq<int>, t: seq<int>, v: int)
    ensures Greater(s + t, v) == Greater(s, v) + Greater(t, v)
    decreases |t|
  {
    if |t| == 0 {
      assert s + t == s;
    } else {
      assert (s + t)[..|s + t| - 1] == s + t[..|t| - 1];
      GreaterAppend(s, t[..|t| - 1], v);
    }
  }

  /** In a sorted prefix, the elements above `a[i]` are exactly those from
      its slot on. */
  lemma {:induction false} GreaterInSortedPrefix(a: seq<int>, i: nat, m: nat)
    requires 1 <= i < |a| && SortedPrefix(a, i) && m <= i
    requires forall k :: Slot(a, i, i) <= k < i ==> a[k] > a[i]
    requires Slot(a, i, i) == 0 || a[Slot(a, i, i) - 1] <= a[i]
    ensures Greater(a[..m], a[i]) == if m <= Slot(a, i, i) then 0 else m - Slot(a, i, i)
    decreases m
  {
    if m > 0 {
      assert a[..m][..m - 1] == a[..m - 1];
      GreaterInSortedPrefix(a, i, m - 1);
      if m - 1 < Slot(a, i, i) {
        assert a[m - 1] <= a[Slot(a, i, i) - 1];
      }
    }
  }

  /** Moving `a[i]` down within `..i` changes no later element's count of
      greater elements before it. */
  lemma {:induction false} InsertedKeepsLater(a: seq<int>, h: nat, i: nat, q: nat)
    requires h <= i < |a| && i < q
    ensures InversionsFrom(Inserted(a, h, i), q) == InversionsFrom(a, q)
    decreases |a| - q
  {
    if q < |a| {
      var b := Inserted(a, h, i);
      assert b[q] == a[q];
      assert b[..q] == a[..h] + [a[i]] + a[h..i] + a[i + 1..q];
      assert a[..q] == a[..h] + a[h..i] + [a[i]] + a[i + 1..q];
      GreaterAppend(a[..h] + [a[i]] + a[h..i], a[i + 1..q], a[q]);
      GreaterAppend(a[..h] + [a[i]], a[h..i], a[q]);
      GreaterAppend(a[..h], [a[i]], a[q]);
      GreaterAppend(a[..h] + a[h..i] + [a[i]], a[i + 1..q], a[q]);
      GreaterAppend(a[..h] + a[h..i], [a[i]], a[q]);
      GreaterAppend(a[..h], a[h..i], a[q]);
      InsertedKeepsLater(a, h, i, q + 1);
    }
  }

  /** Pass `i` compares once for each element of the sorted prefix greater
      than `a[i]`, and leaves every later position's count untouched. */
  lemma PassCompares(a: seq<int>, i: nat)
    requires 1 <= i < |a| && SortedPrefix(a, i)
    ensures Count(Pass(a, i).steps, Compare) == Greater(a[..i], a[i])
    ensures SortedPrefix(Pass(a, i).final, i + 1)
    ensures InversionsFrom(Pass(a, i).final, i + 1) == InversionsFrom(a, i + 1)
  {
    PassInserts(a, i);
    SlotBounds(a, i, i);
    GreaterInSortedPrefix(a, i, i);
    InsertedSorted(a, i);
    InsertedKeepsLater(a, Slot(a, i, i), i, i + 1);
  }

  lemma {:induction false} PassesCompares(a: seq<int>, i: nat)
    requires 1 <= i <= |a| && SortedPrefix(a, i)
    ensures Count(Passes(a, i).steps, Compare) == InversionsFrom(a, i)
    decreases |a| - i
  {
    if i < |a| {
      var p, i' := Pass(a, i), i + 1;
      var rest := Passes(p.final, i');
      PassesUnfold(a, i, p.final, i');
      PassCompares(a, i);
      PassesCompares(p.final, i');
      CountAppend(p.steps, rest.steps, Compare);
      assert InversionsFrom(a, i) == Greater(a[..i], a[i]) + InversionsFrom(a, i');
    }
  }

  /** `insertionSort` compares only when the comparison succeeds, so it
      yields one comparison per inversion of its input. */
  lemma SortCompares(a: seq<int>)
    ensures Count(Sort(a).steps, Compare) == Inversions(a)
  {
    if |a| >= 1 {
      PassesCompares(a, 1);
      assert a[..0] == [];
    }
  }

  /** An array without inversions is exactly a sorted array. */
  lemma {:induction false} NoInversionsSorted(a: seq<int>, i: nat)
    requires i <= |a|
    ensures InversionsFrom(a, i) == 0 <==> forall p, q :: 0 <= p < q < |a| && i <= q ==> a[p] <= a[q]
    decreases |a| - i
  {
    if i < |a| {
      NoInversionsSorted(a, i + 1);
      GreaterZero(a[..i], a[i]);
    }
  }

  /** Nothing in `s` exceeds `v` exactly when the count is zero. */
  lemma {:induction false} GreaterZero(s: seq<int>, v: int)
    ensures Greater(s, v) == 0 <==> forall p :: 0 <= p < |s| ==> s[p] <= v
    decreases |s|
  {
    if |s| > 0 {
      GreaterZero(s[..|s| - 1], v);
    }
  }

  /** On sorted input every pass yields just `insert [i]` and changes
      nothing: no comparisons, `n - 1` inserts at `1 .. n-1`. */
  lemma {:induction false} PassesOnSorted(a: seq<int>, i: nat)
    requires Sorted(a) && 1 <= i <= |a|
    ensures Passes(a, i).final == a
    ensures Passes(a, i).steps == seq(|a| - i, k requires 0 <= k < |a| - i => InsertStep(i + k, a))
    decreases |a| - i
  {
    if i < |a| {
      assert a[i := a[i]] == a;
      assert Pass(a, i) == Run([InsertStep(i, a)], a);
      PassesOnSorted(a, i + 1);
    }
  }

  /** A sorted array yields no comparisons, only `insert [1]` ..
      `insert [n-1]`, and is left unchanged; and an array yields no
      comparisons only when it is sorted. */
  lemma SortOnSorted(a: seq<int>)
    ensures Sorted(a) ==> Sort(a).final == a
    ensures Sorted(a) && |a| >= 1 ==>
      Sort(a).steps == seq(|a| - 1, k requires 0 <= k < |a| - 1 => InsertStep(k + 1, a))
    ensures Count(Sort(a).steps, Compare) == 0 <==> Sorted(a)
  {
    if Sorted(a) && |a| >= 1 {
      PassesOnSorted(a, 1);
    }
    SortCompares(a);
    NoInversionsSorted(a, 0);
  }

  // ---------------------------------------------------------------------
  // A worked example: [5, 3, 4, 1, 2]

  /** Each pass of the example, one shift at a time. A comparison's
      snapshot is the array before the copy that follows it. */
  lemma ExamplePassOne()
    ensures Pass([5, 3, 4, 1, 2], 1) == Run([CompareStep(0, 1, [5, 3, 4, 1, 2]), InsertStep(0, [3, 5, 4, 1, 2])], [3, 5, 4, 1, 2])
  {
    var a: seq<int> := [5, 3, 4, 1, 2];
    var b: seq<int> := [5, 5, 4, 1, 2];
    var c: seq<int> := [3, 5, 4, 1, 2];
    assert a[1 := a[0]] == b;
    assert b[0 := 3] == c;
    ShiftUnfold(a, 3, 0, 1, -1);
  }

  lemma ExamplePassTwo()
    ensures Pass([3, 5, 4, 1, 2], 2) == Run([CompareStep(1, 2, [3, 5, 4, 1, 2]), InsertStep(1, [3, 4, 5, 1, 2])], [3, 4, 5, 1, 2])
  {
    var a: seq<int> := [3, 5, 4, 1, 2];
    var b: seq<int> := [3, 5, 5, 1, 2];
    var c: seq<int> := [3, 4, 5, 1, 2];
    assert a[2 := a[1]] == b;
    assert b[1 := 4] == c;
    ShiftUnfold(a, 4, 1, 2, 0);
  }

  lemma ExamplePassThree()
    ensures Pass([3, 4, 5, 1, 2], 3) == Run([CompareStep(2, 3, [3, 4, 5, 1, 2]), CompareStep(1, 2, [3, 4, 5, 5, 2]), CompareStep(0, 1, [3, 4, 4, 5, 2]), InsertStep(0, [1, 3, 4, 5, 2])], [1, 3, 4, 5, 2])
  {
    var a: seq<int> := [3, 4, 5, 1, 2];
    var b: seq<int> := [3, 4, 5, 5, 2];
    var c: seq<int> := [3, 4, 4, 5, 2];
    var d: seq<int> := [3, 3, 4, 5, 2];
    var e: seq<int> := [1, 3, 4, 5, 2];
    assert a[3 := a[2]] == b;
    assert b[2 := b[1]] == c;
    assert c[1 := c[0]] == d;
    assert d[0 := 1] == e;
    ShiftUnfold(a, 1, 2, 3, 1);
    ShiftUnfold(b, 1, 1, 2, 0);
    ShiftUnfold(c, 1, 0, 1, -1);
  }

  lemma ExamplePassFour()
    ensures Pass([1, 3, 4, 5, 2], 4) == Run([CompareStep(3, 4, [1, 3, 4, 5, 2]), CompareStep(2, 3, [1, 3, 4, 5, 5]), CompareStep(1, 2, [1, 3, 4, 4, 5]), InsertStep(1, [1, 2, 3, 4, 5])], [1, 2, 3, 4, 5])
  {
    var a: seq<int> := [1, 3, 4, 5, 2];
    var b: seq<int> := [1, 3, 4, 5, 5];
    var c: seq<int> := [1, 3, 4, 4, 5];
    var d: seq<int> := [1, 3, 3, 4, 5];
    var e: seq<int> := [1, 2, 3, 4, 5];
    assert a[4 := a[3]] == b;
    assert b[3 := b[2]] == c;
    assert c[2 := c[1]] == d;
    assert d[1 := 2] == e;
    ShiftUnfold(a, 2, 3, 4, 2);
    ShiftUnfold(b, 2, 2, 3, 1);
    ShiftUnfold(c, 2, 1, 2, 0);
  }

  /** The whole run on `[5, 3, 4, 1, 2]`: eight comparisons, one per
      inversion, and four inserts, at positions 0, 1, 0 and 1. In the last
      pass the key 2 moves past 5, 4 and 3 and is inserted at position 1;
      the failing comparison with 1 is silent. */
  lemma WorkedExample()
    ensures Sort([5, 3, 4, 1, 2]) == Run([
      CompareStep(0, 1, [5, 3, 4, 1, 2]), InsertStep(0, [3, 5, 4, 1, 2]),
      CompareStep(1, 2, [3, 5, 4, 1, 2]), InsertStep(1, [3, 4, 5, 1, 2]),
      CompareStep(2, 3, [3, 4, 5, 1, 2]), CompareStep(1, 2, [3, 4, 5, 5, 2]), CompareStep(0, 1, [3, 4, 4, 5, 2]), InsertStep(0, [1, 3, 4, 5, 2]),
      CompareStep(3, 4, [1, 3, 4, 5, 2]), CompareStep(2, 3, [1, 3, 4, 5, 5]), CompareStep(1, 2, [1, 3, 4, 4, 5]), InsertStep(1, [1, 2, 3, 4, 5])],
      [1, 2, 3, 4, 5])
  {
    var a, b, c, d, e: seq<int> := [5, 3, 4, 1, 2], [3, 5, 4, 1, 2], [3, 4, 5, 1, 2], [1, 3, 4, 5, 2], [1, 2, 3, 4, 5];
    ExamplePassOne();
    ExamplePassTwo();
    ExamplePassThree();
    ExamplePassFour();
    PassesUnfold(d, 4, e, 5);
    var r4 := Passes(d, 4);
    assert r4.final == e && r4.steps == Pass(d, 4).steps;
    PassesUnfold(c, 3, d, 4);
    var r3 := Passes(c, 3);
    assert r3.final == e && r3.steps == Pass(c, 3).steps + r4.steps;
    PassesUnfold(b, 2, c, 3);
    var r2 := Passes(b, 2);
    assert r2.final == e && r2.steps == Pass(b, 2).steps + r3.steps;
    PassesUnfold(a, 1, b, 2);
  }
}
