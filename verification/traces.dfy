/** The events a sorting generator yields, and the trace of a whole run.

    A generator of the visualiser suspends after every comparison or write
    and hands out an event `{ type, indices, extra }`. Here one run of a
    generator is the finished list of those events, each paired with the
    array as it stood when the event was yielded, plus the array the
    generator leaves behind when it is exhausted. Delegation to a
    sub-generator (`yield*`) is concatenation of such lists. */
module Traces {
  import opened Arrays

  /** The `type` tag of an event. */
  datatype Kind = Compare | Swap | Insert

  /** One yielded event: its tag, the positions it names (`indices`) and
      the positions carried in `extra` (only selection sort fills it). */
  datatype Event = Event(kind: Kind, indices: seq<nat>, extra: seq<nat>)

  /** An event together with the array at the moment it was yielded. */
  datatype Step = Step(event: Event, snapshot: seq<int>)

  /** Everything one generator yields, in order, and the array it leaves
      when it reports `done`. */
  datatype Run = Run(steps: seq<Step>, final: seq<int>)

  function CompareStep(i: nat, j: nat, a: seq<int>): Step {
    Step(Event(Compare, [i, j], []), a)
  }

  function SwapStep(i: nat, j: nat, a: seq<int>): Step {
    Step(Event(Swap, [i, j], []), a)
  }

  function InsertStep(k: nat, a: seq<int>): Step {
    Step(Event(Insert, [k], []), a)
  }

  /** A run that yields `s` and then continues as `r` (a `yield`
      followed by more of the same generator). */
  function Prepend(s: Step, r: Run): Run {
    Run([s] + r.steps, r.final)
  }

  /** A run that delegates to `r1` and then to `r2` (`yield*` twice). */
  function Then(r1: Run, r2: Run): Run {
    Run(r1.steps + r2.steps, r2.final)
  }

  /** The array just before step `k` of a run started on `a0`. */
  function Before(a0: seq<int>, steps: seq<Step>, k: nat): seq<int>
    requires k <= |steps|
  {
    if k == 0 then a0 else steps[k - 1].snapshot
  }

  /** The array after the last step (or `a0` when nothing was yielded). */
  function Last(a0: seq<int>, steps: seq<Step>): seq<int> {
    Before(a0, steps, |steps|)
  }

  /** The array the run leaves is the one its last event showed: nothing is
      written between the last `yield` and exhaustion. */
  predicate FinalShown(a0: seq<int>, r: Run) {
    r.final == Last(a0, r.steps)
  }

  lemma FinalShownPrepend(a0: seq<int>, s: Step, r: Run)
    requires FinalShown(s.snapshot, r)
    ensures FinalShown(a0, Prepend(s, r))
  {
  }

  lemma FinalShownThen(a0: seq<int>, r1: Run, r2: Run)
    requires FinalShown(a0, r1) && FinalShown(r1.final, r2)
    ensures FinalShown(a0, Then(r1, r2))
  {
  }

  /** Delegating first to a generator that yields nothing is delegating
      to the second alone. */
  lemma ThenSilent(r1: Run, r2: Run)
    requires r1.steps == []
    ensures Then(r1, r2) == r2
  {
    assert [] + r2.steps == r2.steps;
  }

  /** Number of events of kind `k`. */
  function Count(steps: seq<Step>, k: Kind): nat {
    if |steps| == 0 then 0
    else (if steps[0].event.kind == k then 1 else 0) + Count(steps[1..], k)
  }

  lemma CountPrepend(s: Step, rest: seq<Step>, k: Kind)
    ensures Count([s] + rest, k) == (if s.event.kind == k then 1 else 0) + Count(rest, k)
  {
    assert ([s] + rest)[1..] == rest;
  }

  lemma {:induction false} CountAppend(s1: seq<Step>, s2: seq<Step>, k: Kind)
    ensures Count(s1 + s2, k) == Count(s1, k) + Count(s2, k)
  {
    if |s1| == 0 {
      assert s1 + s2 == s2;
    } else {
      assert (s1 + s2)[1..] == s1[1..] + s2;
      CountAppend(s1[1..], s2, k);
    }
  }

  /** The first index of every `insert` event, in the order yielded. */
  function InsertPositions(steps: seq<Step>): seq<nat> {
    if |steps| == 0 then []
    else
      var rest := InsertPositions(steps[1..]);
      if steps[0].event.kind == Insert && |steps[0].event.indices| > 0
      then [steps[0].event.indices[0]] + rest
      else rest
  }

  lemma {:induction false} InsertPositionsAppend(s1: seq<Step>, s2: seq<Step>)
    ensures InsertPositions(s1 + s2) == InsertPositions(s1) + InsertPositions(s2)
  {
    if |s1| == 0 {
      assert s1 + s2 == s2;
    } else {
      assert (s1 + s2)[1..] == s1[1..] + s2;
      InsertPositionsAppend(s1[1..], s2);
    }
  }

  /** The event of `s` names exactly what changed between `before` and the
      snapshot: a comparison changes nothing, a swap exchanges the two named
      positions, an insert overwrites the one named position and nothing
      else. A renderer that only sees events can then replay the array. */
  predicate Announces(before: seq<int>, s: Step) {
    var ix := s.event.indices;
    match s.event.kind
    case Compare => s.snapshot == before
    case Swap =>
      |ix| == 2 && ix[0] < |before| && ix[1] < |before|
      && s.snapshot == Swapped(before, ix[0], ix[1])
    case Insert =>
      |ix| == 1 && ix[0] < |before| && |s.snapshot| == |before|
      && forall p :: 0 <= p < |before| && p != ix[0] ==> s.snapshot[p] == before[p]
  }

  /** Every step of a run started on `a0` announces its own change. */
  predicate Faithful(a0: seq<int>, steps: seq<Step>)
    decreases |steps|
  {
    |steps| == 0 || (Announces(a0, steps[0]) && Faithful(steps[0].snapshot, steps[1..]))
  }

  lemma FaithfulPrepend(a0: seq<int>, s: Step, rest: seq<Step>)
    requires Announces(a0, s) && Faithful(s.snapshot, rest)
    ensures Faithful(a0, [s] + rest)
  {
    assert ([s] + rest)[1..] == rest;
  }

  lemma {:induction false} FaithfulAppend(a0: seq<int>, s1: seq<Step>, s2: seq<Step>)
    requires Faithful(a0, s1) && Faithful(Last(a0, s1), s2)
    ensures Faithful(a0, s1 + s2)
    decreases |s1|
  {
    if |s1| > 0 {
      assert (s1 + s2)[1..] == s1[1..] + s2;
      assert Last(s1[0].snapshot, s1[1..]) == Last(a0, s1);
      FaithfulAppend(s1[0].snapshot, s1[1..], s2);
    } else {
      assert s1 + s2 == s2;
    }
  }

  /** `steps` only compares, on the array `a`. */
  predicate Inspects(a: seq<int>, steps: seq<Step>) {
    forall k :: 0 <= k < |steps| ==> steps[k].event.kind == Compare && steps[k].snapshot == a
  }

  /** Comparisons alone change nothing and announce that. */
  lemma {:induction false} InspectsFaithful(a: seq<int>, steps: seq<Step>)
    requires Inspects(a, steps)
    ensures Faithful(a, steps) && Last(a, steps) == a
    decreases |steps|
  {
    if |steps| > 0 {
      InspectsFaithful(a, steps[1..]);
    }
  }

  /** Delegating to two faithful runs in turn is faithful. */
  lemma FaithfulThen(a0: seq<int>, r1: Run, r2: Run)
    requires Faithful(a0, r1.steps) && FinalShown(a0, r1)
    requires Faithful(r1.final, r2.steps) && FinalShown(r1.final, r2)
    ensures Faithful(a0, Then(r1, r2).steps) && FinalShown(a0, Then(r1, r2))
  {
    FaithfulAppend(a0, r1.steps, r2.steps);
    FinalShownThen(a0, r1, r2);
  }

  /** The number of unordered pairs of `m` items, counted the way a pass
      structure counts them: (m-1) + (m-2) + ... + 1 + 0. */
  function Pairs(m: nat): nat {
    if m == 0 then 0 else (m - 1) + Pairs(m - 1)
  }

  lemma PairsStep(m: nat, m': nat)
    requires m == m' + 1
    ensures Pairs(m) == m' + Pairs(m')
  {
  }

  lemma {:induction false} PairsClosedForm(m: nat)
    ensures 2 * Pairs(m) == m * (m - 1)
  {
    if m > 0 {
      PairsClosedForm(m - 1);
      assert (m - 1) * (m - 2) + 2 * (m - 1) == m * (m - 1);
    }
  }
}
