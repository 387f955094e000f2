/** The step engine: `runStep` pulls one event from the generator of the
    selected algorithm, creating that generator only when there is none,
    and turns the event into the index sets the renderer colours.

    A generator is represented by the trace of the algorithm it runs (see
    the algorithm modules) and a cursor into that trace: the algorithm, the
    array the generator started on, and how many events it has yielded. */
module Engine {
  import opened Arrays
  import opened Traces
  import BubbleSort
  import SelectionSort
  import InsertionSort
  import MergeSort
  import QuickSort
  import HeapSort

  datatype Option<T> = None | Some(value: T)

  /** The six generators behind the algorithm selector. */
  datatype Algorithm = Bubble | Selection | Insertion | Merge | Quick | Heap

  /** The selector value that names each algorithm. */
  function Name(alg: Algorithm): string {
    match alg
    case Bubble => "bubbleSort"
    case Selection => "selectionSort"
    case Insertion => "insertionSort"
    case Merge => "mergeSort"
    case Quick => "quickSort"
    case Heap => "heapSort"
  }

  /** The `switch` of `runStep`: the algorithm a selector value names, or
      nothing when it matches no case (the generator then stays null). */
  function Lookup(value: string): Option<Algorithm> {
    if value == "bubbleSort" then Some(Bubble)
    else if value == "selectionSort" then Some(Selection)
    else if value == "insertionSort" then Some(Insertion)
    else if value == "mergeSort" then Some(Merge)
    else if value == "quickSort" then Some(Quick)
    else if value == "heapSort" then Some(Heap)
    else None
  }

  /** Every algorithm is found under its name, and a value that is found is
      exactly that algorithm's name. */
  lemma LookupName(alg: Algorithm, value: string)
    ensures Lookup(Name(alg)) == Some(alg)
    ensures Lookup(value) == Some(alg) <==> value == Name(alg)
  {
  }

  /** Everything the generator of `alg` yields when started on `a`, and the
      array it leaves. */
  function Trace(alg: Algorithm, a: seq<int>): Run {
    match alg
    case Bubble => BubbleSort.Sort(a)
    case Selection => SelectionSort.Sort(a)
    case Insertion => InsertionSort.Sort(a)
    case Merge => MergeSort.Sort(a)
    case Quick => QuickSort.Sort(a)
    case Heap => HeapSort.Sort(a)
  }

  /** Whichever algorithm is selected, its generator runs out with the
      array sorted and a permutation of where it started, the last event
      shows that array, and an array of length 0 or 1 yields no events. */
  lemma TraceSorts(alg: Algorithm, a: seq<int>)
    ensures Sorted(Trace(alg, a).final)
    ensures multiset(Trace(alg, a).final) == multiset(a)
    ensures FinalShown(a, Trace(alg, a))
    ensures |a| <= 1 ==> Trace(alg, a).steps == []
  {
    match alg
    case Bubble => BubbleSort.SortCorrect(a);
    case Selection => SelectionSort.SortCorrect(a);
    case Insertion => InsertionSort.SortCorrect(a);
    case Merge => MergeSort.SortCorrect(a);
    case Quick => QuickSort.SortCorrect(a);
    case Heap => HeapSort.SortCorrect(a);
  }

  /** Every event of every generator except insertion sort's names exactly
      the positions that changed since the previous event. */
  lemma TraceFaithful(alg: Algorithm, a: seq<int>)
    requires alg != Insertion
    ensures Faithful(a, Trace(alg, a).steps)
  {
    match alg
    case Bubble => BubbleSort.SortFaithful(a);
    case Selection => SelectionSort.SortFaithful(a);
    case Merge => MergeSort.SortCorrect(a);
    case Quick => QuickSort.SortCorrect(a);
    case Heap => HeapSort.SortCorrect(a);
  }

  /** Insertion sort shifts elements without yielding: on `[2, 1]` the
      write `array[1] = array[0]` is shown only together with the final
      `insert [0]`, which names position 0 alone. */
  lemma InsertionShiftsSilently()
    ensures Trace(Insertion, [2, 1]).steps == [CompareStep(0, 1, [2, 1]), InsertStep(0, [1, 2])]
    ensures !Faithful([2, 1], Trace(Insertion, [2, 1]).steps)
  {
    var a := [2, 1];
    assert a[1 := 2][0 := 1] == [1, 2];
    var last := InsertionSort.Shift(a[1 := 2], 1, -1);
    assert last == Run([InsertStep(0, [1, 2])], [1, 2]);
    var p := InsertionSort.Shift(a, 1, 0);
    assert p == Prepend(CompareStep(0, 1, a), last);
    assert InsertionSort.Passes(p.final, 2) == Run([], p.final);
    assert p.steps + [] == p.steps;
    assert !Announces([2, 1], InsertStep(0, [1, 2])) by {
      assert InsertStep(0, [1, 2]).snapshot[1] != a[1];
    }
  }

  // ---------------------------------------------------------------------
  // What runStep hands to the renderer

  /** The three index lists `drawArray` receives. */
  datatype Frame = Frame(highlighted: seq<nat>, swapped: seq<nat>, sorted: seq<nat>)

  /** `runStep`'s mapping of an event: `compare` indices are highlighted,
      `swap` and `insert` indices are shown as swapped, `extra` is
      dropped. */
  function FrameOf(e: Event): Frame {
    match e.kind
    case Compare => Frame(e.indices, [], [])
    case Swap => Frame([], e.indices, [])
    case Insert => Frame([], e.indices, [])
  }

  /** Every position `0 .. n-1`: the `sorted` list of the last frame. */
  function AllIndices(n: nat): (r: seq<nat>)
    ensures |r| == n && forall k :: 0 <= k < n ==> r[k] == k
  {
    seq(n, k requires 0 <= k < n => k as nat)
  }

  /** The frame drawn once the generator reports `done`. */
  function DoneFrame(n: nat): Frame {
    Frame([], [], AllIndices(n))
  }

  /** The colours `drawArray` gives a bar: sorted wins over swapped, which
      wins over compared, which wins over the default. */
  datatype Colour = Blue | Green | Yellow | Red

  function ColourOf(f: Frame, k: nat): Colour {
    if k in f.sorted then Green
    else if k in f.swapped then Yellow
    else if k in f.highlighted then Red
    else Blue
  }

  /** The bars an event names are red for a comparison and yellow for a
      write; every other bar keeps the default colour; `extra` never shows. */
  lemma FrameColours(e: Event, k: nat)
    ensures ColourOf(FrameOf(e), k) ==
      if k !in e.indices then Blue else if e.kind == Compare then Red else Yellow
    ensures FrameOf(e) == FrameOf(e.(extra := []))
  {
  }

  /** For an event that announces its change, every bar whose height it
      changed is drawn yellow: what moved on screen is what is highlighted
      as written. */
  lemma ChangedBarsYellow(before: seq<int>, st: Step, k: nat)
    requires Announces(before, st) && k < |before| && k < |st.snapshot|
    requires st.snapshot[k] != before[k]
    ensures st.event.kind != Compare && ColourOf(FrameOf(st.event), k) == Yellow
  {
    var ix := st.event.indices;
    match st.event.kind
    case Compare =>
      assert false;
    case Swap =>
      assert k == ix[0] || k == ix[1];
      FrameColours(st.event, k);
    case Insert =>
      assert k == ix[0];
      FrameColours(st.event, k);
  }

  /** When the generator is done every bar is green. */
  lemma DoneColours(n: nat, k: nat)
    requires k < n
    ensures ColourOf(DoneFrame(n), k) == Green
  {
    assert AllIndices(n)[k] == k;
  }

  // ---------------------------------------------------------------------
  // The step

  /** A suspended generator: which algorithm, the array it started on, and
      how many events it has yielded so far. */
  datatype Cursor = Cursor(alg: Algorithm, start: seq<int>, taken: nat)

  /** The page's state: `array` (the bar heights), the generator (`null` or
      suspended), `isSorting`, the interval timer (cleared, or armed with a
      period in milliseconds), the selector's value, `sortSpeed`, and the
      size slider's value. */
  datatype State = State(
    bars: seq<int>,
    gen: Option<Cursor>,
    isSorting: bool,
    timer: Option<int>,
    selection: string,
    speed: int,
    slider: nat)

  /** What one `runStep` shows: the frame of the event pulled, the all-green
      frame once the generator is exhausted, or the `TypeError` thrown when
      no generator could be created. */
  datatype Reply = Drawn(frame: Frame) | Finished(frame: Frame) | Crashed

  /** The generator `runStep` pulls from: the existing one, or a new one for
      the selected algorithm started on the current array. */
  function Generator(s: State): Option<Cursor> {
    if s.gen.Some? then s.gen
    else match Lookup(s.selection)
      case Some(alg) => Some(Cursor(alg, s.bars, 0))
      case None => None
  }

  /** `runStep`: pull the next event and show its frame; on `done` stop the
      timer, clear `isSorting` and show every bar as sorted, keeping the
      exhausted generator; with no generator, throw and change nothing. */
  function RunStep(s: State): (State, Reply) {
    match Generator(s)
    case None => (s, Crashed)
    case Some(c) =>
      var run := Trace(c.alg, c.start);
      if c.taken < |run.steps| then
        var st := run.steps[c.taken];
        (s.(bars := st.snapshot, gen := Some(c.(taken := c.taken + 1))), Drawn(FrameOf(st.event)))
      else
        (s.(bars := run.final, gen := Some(c), isSorting := false, timer := None), Finished(DoneFrame(|run.final|)))
  }

  /** The array is what the generator has made of its starting array so
      far: its starting array before the first event, and the snapshot of
      the latest event after. */
  predicate Consistent(s: State) {
    s.gen.Some? ==>
      var c := s.gen.value;
      c.taken <= |Trace(c.alg, c.start).steps| && s.bars == Before(c.start, Trace(c.alg, c.start).steps, c.taken)
  }

  /** With no generator and a selector value that names nothing, `runStep`
      throws and nothing changes; otherwise it never throws. */
  lemma RunStepCrashes(s: State)
    ensures RunStep(s).1 == Crashed <==> s.gen.None? && Lookup(s.selection).None?
    ensures RunStep(s).1 == Crashed ==> RunStep(s).0 == s
  {
  }

  /** A generator is created only when there is none, for the selected
      algorithm on the current array; an existing one is continued, whatever
      the selector now says. */
  lemma RunStepContinues(s: State)
    requires RunStep(s).1 != Crashed
    ensures var g := RunStep(s).0.gen;
      && g.Some?
      && (s.gen.Some? ==> g.value.alg == s.gen.value.alg && g.value.start == s.gen.value.start)
      && (s.gen.None? ==> Lookup(s.selection) == Some(g.value.alg) && g.value.start == s.bars)
  {
  }

  /** Each step pulls the next event of the trace in order and shows its
      frame; the array becomes that event's snapshot. */
  lemma RunStepDelivers(s: State)
    requires Generator(s).Some?
    ensures var c := Generator(s).value;
      var steps := Trace(c.alg, c.start).steps;
      c.taken < |steps| ==>
        && RunStep(s).1 == Drawn(FrameOf(steps[c.taken].event))
        && RunStep(s).0.bars == steps[c.taken].snapshot
        && RunStep(s).0.gen == Some(c.(taken := c.taken + 1))
  {
  }

  /** `runStep` keeps the array in step with the generator. */
  lemma RunStepConsistent(s: State)
    requires Consistent(s)
    ensures Consistent(RunStep(s).0)
  {
    match Generator(s)
    case None =>
    case Some(c) =>
      var run, t := Trace(c.alg, c.start), RunStep(s).0;
      if c.taken < |run.steps| {
        var k' := c.taken + 1;
        assert t.gen == Some(c.(taken := k')) && t.bars == run.steps[c.taken].snapshot;
        assert t.bars == Before(c.start, run.steps, k');
      } else {
        TraceSorts(c.alg, c.start);
        assert t.gen == Some(c) && t.bars == run.final;
      }
  }

  /** Once the generator is exhausted `runStep` stops the timer and clears
      `isSorting`, the array it leaves is the one already shown, sorted and a
      permutation of the array the run started on, and every later step
      reports `done` again with nothing changed. */
  lemma DoneIsFinal(s: State)
    requires Consistent(s) && RunStep(s).1.Finished?
    ensures var t := RunStep(s).0;
      && t.bars == s.bars
      && !t.isSorting && t.timer.None?
      && Sorted(t.bars) && multiset(t.bars) == multiset(t.gen.value.start)
      && RunStep(s).1 == Finished(DoneFrame(|s.bars|))
      && RunStep(t) == (t, RunStep(s).1)
  {
    var c := Generator(s).value;
    TraceSorts(c.alg, c.start);
  }

  /** Drawing an event shows exactly the change the renderer is told about:
      the new array differs from the previous one only at the positions the
      frame colours (for every algorithm but insertion sort). */
  lemma RunStepAnnounces(s: State)
    requires Consistent(s) && Generator(s).Some? && Generator(s).value.alg != Insertion
    requires RunStep(s).1.Drawn?
    ensures var c := Generator(s).value;
      Announces(s.bars, Trace(c.alg, c.start).steps[c.taken])
  {
    var c := Generator(s).value;
    var steps := Trace(c.alg, c.start).steps;
    TraceFaithful(c.alg, c.start);
    FaithfulAt(c.start, steps, c.taken);
  }

  /** In a faithful run, step `k` announces its change from the array
      before it. */
  lemma {:induction false} FaithfulAt(a0: seq<int>, steps: seq<Step>, k: nat)
    requires Faithful(a0, steps) && k < |steps|
    ensures Announces(Before(a0, steps, k), steps[k])
    decreases k
  {
    if k > 0 {
      FaithfulAt(steps[0].snapshot, steps[1..], k - 1);
      assert Before(steps[0].snapshot, steps[1..], k - 1) == Before(a0, steps, k);
    }
  }
}
