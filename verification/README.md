# Sorting visualiser: a Dafny model of its generators and playback

The visualiser draws an array of random bar heights and animates one of six
sorting algorithms over it. Each algorithm is a JavaScript generator that
sorts the shared `array` in place and yields an event (`compare`, `swap`
or `insert`, with the indices involved) after each observable step.
`runStep` pulls one event, creating the generator for the selected algorithm
when there is none, and turns the event into the red/yellow highlight of a
redraw. Once the generator is done, `runStep` stops the timer and draws
every bar green. The page's listeners (generate, start, pause, next, the
size and speed sliders) and the interval timer drive `runStep`.

The model has the following parts:

- **Traces** (`traces.dfy`, module `Traces`). A generator drained to
  exhaustion is a `Run`: the sequence of `Step`s it yields and the array it
  leaves. Each step is an event together with the array as it stands at the
  `yield` (its snapshot). `yield*` becomes `Then`, the concatenation of runs.
  `Faithful` says that every event names exactly what changed since the
  previous one. `FinalShown` says that the last snapshot is the final array.
- **The six algorithms** (`bubble.dfy`, `selection.dfy`, `insertion.dfy`,
  `merge.dfy`, `quick.dfy`, `heap.dfy`). Each is a pure recursive function
  that follows the source's loops and recursion branch for branch and yields
  the same events in the same order. Each has proofs that the result is
  sorted and is a permutation of the input. Each also has proofs of what its
  event stream promises, such as comparison counts, which comparisons
  precede swaps, or where inserts land. These are stated against reference
  definitions: `Merged`, `Inserted`/`Slot`, `Heap`, `LeftmostMin`, `Pairs`
  and `Inversions`.
- **The step engine** (`engine.dfy`, module `Engine`). A suspended generator
  is a `Cursor`: the algorithm, the array it started on, and how many events
  it has yielded. `RunStep` is `runStep`. `Reply` is what it shows: a frame,
  the all-sorted frame, or the `TypeError` raised when there is no
  generator. `ColourOf` is `drawArray`'s colour precedence.
- **Playback** (`playback.dfy`, module `Playback`). `Handle` gives each
  listener, and the timer's tick, as a transition of the page `State`.
  `Play` runs a sequence of commands. `Inv` ties the timer to `isSorting`
  and `sortSpeed`, and ties the array to the generator's progress.

## Behaviour worth knowing

- The algorithm selector has no listener. Choosing another algorithm while a
  run is paused keeps the run, and the next step continues the old generator
  (`Playback.ChooseKeepsRun`).
- The size slider's value is used as it is, so size 0 gives an empty array.
- When the selector names no algorithm, the `switch` leaves the generator
  `null` and `.next()` throws a `TypeError`. The model reports this as
  `Reply.Crashed` and leaves the state unchanged (`Engine.RunStepCrashes`).
- Heap sort and insertion sort yield `compare` only when the comparison
  succeeds. A failed comparison is silent (`HeapSort.SortStrict`,
  `InsertionSort.SortCompares`).
- On `[5, 3, 4, 1, 2]` insertion sort yields eight comparisons and four
  inserts. The last key, 2, is inserted at position 1 after three
  comparisons (`InsertionSort.WorkedExample`).
- A step after exhaustion reports `done` again and redraws every bar green
  (`Engine.DoneIsFinal`).
- The start listener, run while sorting, acts as pause
  (`Playback.StartToggles`). The page disables the start button while
  sorting, so a user reaches only its other branch (`Playback.EnabledCommands`).
- Next and start use the same generator: `runStep` creates one only when
  there is none (`Playback.PlayDelivers`). From a state without a
  generator, the first step creates it on the current array, and every later
  step continues it (`Playback.PlayStarts`).

## Model

| member | source | states |
|---|---|---|
| Arrays.SortedUnique | script.js:75-215 | two sorted arrangements of the same values are equal, so every generator that sorts its input ends on the same array |
| Arrays.SwapPermutes | script.js:81 | the destructuring swap of two positions inside a range rearranges that range and leaves everything else alone |
| Traces.FaithfulThen | script.js:123-125 | `yield*` of two runs, each announcing all its changes and ending on what it shows, is such a run too |
| BubbleSort.VisitOrders | script.js:79-83 | one inner iteration leaves `a[j] <= a[j+1]`, with the larger value in `j+1`, by a rearrangement of those two positions only |
| BubbleSort.PassCarriesMax | script.js:78-84 | an inner loop carries the largest value of `0 .. n-i-1` to position `n-i-1`, rearranging only that prefix |
| BubbleSort.PassesSort | script.js:77-85 | from a state whose suffix holds its final values, the remaining passes sort the array, keep its values and end on the last shown array |
| BubbleSort.SortCorrect | script.js:75-86 | the generator leaves the array sorted, a permutation of its input, shown by its last event; arrays of length 0 or 1 yield nothing |
| BubbleSort.SortCompares | script.js:77-79 | exactly `n(n-1)/2` comparisons are yielded, whatever the input |
| BubbleSort.SortSwapsAnswerCompares | script.js:79-83 | a swap is yielded exactly after a comparison of an out-of-order pair, on the same indices |
| BubbleSort.SortFaithful | script.js:79-82 | a comparison changes nothing and a swap event shows exactly the two positions exchanged |
| SelectionSort.ScanFindsMin | script.js:92-97 | the inner loop ends with `minIdx` at the leftmost minimum of `i .. n-1` |
| SelectionSort.SortShowsMinimums | script.js:93 | the `extra` of every comparison is the leftmost minimum of `i .. j-1` at that moment |
| SelectionSort.ScanOnlyCompares | script.js:92-97 | the scan yields `n-j` comparisons, no swap, and leaves the array unchanged |
| SelectionSort.PassPlacesMin | script.js:90-101 | pass `i` rearranges only `i ..` and leaves the first `i+1` positions in their final order |
| SelectionSort.PassCounts | script.js:92-101 | pass `i` yields `n-1-i` comparisons and one swap exactly when some later element is smaller than `a[i]` |
| SelectionSort.SortCorrect | script.js:88-103 | sorted, a permutation, last event shows the result, `n(n-1)/2` comparisons, nothing for length 0 or 1 |
| SelectionSort.SortFaithful | script.js:93-100 | every event announces exactly its change and at most `n-1` swaps are yielded |
| InsertionSort.ShiftMovesKey | script.js:110-116 | the `while` loop yields one comparison per larger prefix element, moves the key down to its slot and inserts it there |
| InsertionSort.PassInserts | script.js:107-117 | each pass ends with exactly one insert, at the key's slot, and that insert is the pass's last event |
| InsertionSort.InsertedSorted | script.js:107-117 | inserting `a[i]` at its slot in a sorted prefix gives a sorted prefix one longer |
| InsertionSort.InsertedPermutes | script.js:110-115 | moving `a[i]` down to a hole `h` by shifts and the final write rearranges `h .. i` only |
| InsertionSort.PassesSort | script.js:107-117 | from a sorted prefix the remaining passes sort the array and keep its values |
| InsertionSort.SortCorrect | script.js:105-118 | sorted, a permutation, last event shows the result, nothing for length 0 or 1 |
| InsertionSort.SortInserts | script.js:115-116 | a non-empty array yields exactly `n-1` inserts |
| InsertionSort.SortCompares | script.js:110-111 | the number of comparisons equals the number of inversions of the input |
| InsertionSort.NoInversionsSorted | script.js:110 | an array has no inversions exactly when it is sorted |
| InsertionSort.SortOnSorted | script.js:110-116 | the generator yields no comparison exactly when its input is sorted; a sorted input is left unchanged, each key inserted where it was |
| InsertionSort.WorkedExample | script.js:105-118 | the full event sequence, with snapshots, on `[5, 3, 4, 1, 2]` |
| MergeSort.MergedPermutes | script.js:135-158 | the reference merge holds exactly the values of both runs |
| MergeSort.MergedSorted | script.js:135-158 | merging two sorted runs gives a sorted run |
| MergeSort.MergedOrdered | script.js:137 | when every left value is at most every right value, merging just concatenates |
| MergeSort.MergeWrites | script.js:129-159 | `merge(left, mid, right)` writes the merge of its two slices into `left .. right` and leaves the rest of the array unchanged |
| MergeSort.MergeInserts | script.js:135-158 | the inserts land on `left, left+1, …, right` in order, each event announces its write, and the last shows the result |
| MergeSort.MergeSorts | script.js:129-159 | `merge` rearranges `left .. right`, sorting it when both halves are sorted |
| MergeSort.MergeOrdered | script.js:135-146 | on already-ordered halves `merge` changes nothing and compares exactly `mid+1-left` times, because ties take from the left |
| MergeSort.SortRangeBlocks | script.js:120-127 | a range's events come in three blocks: some naming only `left .. mid`, then some naming only `mid+1 .. right`, then exactly `right - left + 1` inserts writing `left .. right` in order |
| MergeSort.SortRangeSorts | script.js:120-127 | `mergeSort(left, right)` sorts `left .. right` by a rearrangement of that range only |
| MergeSort.SortRangeFaithful | script.js:120-159 | every event of a range announces its change and the last shows the result |
| MergeSort.SortRangeInRange | script.js:120-159 | every index any event of `mergeSort(left, right)` names lies in `left .. right` |
| MergeSort.SortCorrect | script.js:120-159 | sorted, a permutation, faithful, last event shows the result, nothing for length 0 or 1 |
| QuickSort.ScanSplits | script.js:172-179 | the loop keeps `low .. i` below the pivot and `i+1 .. j-1` at or above it, never touching `high` |
| QuickSort.PartitionSplits | script.js:169-183 | the pivot ends at `pi`, with everything before it strictly smaller and everything after it not smaller |
| QuickSort.PartitionEndsWithSwap | script.js:169-182 | the pivot's slot `high` is swapped only by the last event, `swap [pi, high]`; every earlier swap names positions below `high`, and the pivot `a[high]` ends at `pi` |
| QuickSort.PartitionPermutes | script.js:169-183 | `partition` rearranges `low .. high` only |
| QuickSort.PartitionFaithful | script.js:172-181 | every event of a partition announces its change and the last shows the result |
| QuickSort.SortRangeSorts | script.js:161-167 | `quickSort(low, high)` sorts `low .. high` |
| QuickSort.SortRangePermutes | script.js:161-167 | `quickSort(low, high)` rearranges `low .. high` only |
| QuickSort.SortCorrect | script.js:161-183 | sorted, a permutation, faithful, last event shows the result, nothing for length 0 or 1 |
| QuickSort.SortKeepsSorted | script.js:161-183 | sorted input ends as it started |
| QuickSort.PartitionAllEqual | script.js:169-183 | on equal values no element is below the pivot: `pi = low`, `high-low` comparisons, array unchanged |
| QuickSort.SortAllEqual | script.js:161-183 | on equal values the run terminates with the array unchanged, after exactly `n(n-1)/2` comparisons |
| HeapSort.LargestIsMax | script.js:199-209 | `largest` is `i` or a child, at least as large as `i` and the children in the heap, strictly larger when it moved, with ties kept left |
| HeapSort.HeapifyRestores | script.js:198-215 | `heapify` turns a heap with one misplaced parent into a heap |
| HeapSort.HeapifyPermutes | script.js:210-214 | `heapify(i, n)` rearranges `i .. n-1` only |
| HeapSort.HeapifyQuiet | script.js:202-214 | `heapify` swaps nothing exactly when no child in the heap exceeds `a[i]`, and then changes nothing |
| HeapSort.HeapifyStrict | script.js:202-208 | every comparison `heapify` yields names a child strictly larger than the current largest |
| HeapSort.LeavesAreHeaps | script.js:187 | positions from `n/2` on have no children, so the build loop may start at `n/2 - 1` |
| HeapSort.BuildHeap | script.js:187-189 | the build loop makes the whole array a max-heap |
| HeapSort.HeapRootMax | script.js:192 | the root of a max-heap is its largest element |
| HeapSort.RootSwapPlaces | script.js:191-194 | swapping the root to `i` places it for good and leaves a heap broken only at the root |
| HeapSort.ExtractSorts | script.js:191-195 | the extraction loop sorts a heap whose suffix is already placed |
| HeapSort.SortCorrect | script.js:185-215 | sorted, a permutation, faithful, last event shows the result, nothing for length 0 or 1 |
| HeapSort.SortStrict | script.js:185-215 | every comparison heap sort yields is of a strictly larger child |
| HeapSort.SortAllEqual | script.js:185-215 | on equal values heap sort yields only the `n-1` root swaps `[0, i]`, no comparison, and leaves the array unchanged |
| Engine.LookupName | script.js:218-240 | the six selector values name the six generators, one each |
| Engine.TraceSorts | script.js:217-250 | whichever algorithm is selected, its generator runs out with the array sorted and a permutation of its start |
| Engine.TraceFaithful | script.js:75-215 | every generator except insertion sort announces exactly what it changes |
| Engine.InsertionShiftsSilently | script.js:110-116 | insertion sort's shifts are not announced: on `[2, 1]` the trace is not faithful |
| Engine.FrameColours | script.js:43-50 | an event's bars are red for a comparison and yellow for a swap or insert, the rest default; `extra` is never drawn |
| Engine.DoneColours | script.js:246 | once done every bar is drawn green |
| Engine.RunStepCrashes | script.js:218-243 | `runStep` fails exactly when there is no generator and the selector names none; the state is then unchanged |
| Engine.RunStepConsistent | script.js:217-261 | the array stays what the generator has made of its start |
| Engine.ChangedBarsYellow | script.js:43-50 | for an event that announces its change, every bar whose height changed is drawn yellow and the event is not a comparison |
| Engine.DoneIsFinal | script.js:244-250 | on `done` the timer stops, sorting ends, the array is sorted and unchanged, all bars are green, and stepping again repeats exactly that |
| Engine.RunStepAnnounces | script.js:243-260 | for every algorithm but insertion, the event drawn names exactly what changed on screen |
| Playback.DrawInRange | script.js:32 | every random draw gives a height in `1 .. 500` |
| Playback.InitState | script.js:17-22 | page load leaves no run, `sortSpeed` 100 and a fresh array of the slider's size |
| Playback.RegenerateFresh | script.js:25-37 | regeneration clears the timer, `isSorting` and the generator and fills the slider's number of bars with heights in `1 .. 500` |
| Playback.GenerateResets | script.js:264 | the generate listener regenerates and drops the generator, clearing the timer if it was armed |
| Playback.EnabledCommands | script.js:56-72 | with only the controls `toggleControls` leaves enabled, start always starts, next always steps, generate and size never interrupt a playing run, speed never touches the timer, and pause stops a playing run |
| Playback.HandleKeepsInv | script.js:264-311 | every listener keeps the timer armed exactly while sorting, with period `sortSpeed`, and the array consistent with the generator |
| Playback.StartToggles | script.js:266-279 | the start listener while sorting is pause; from a consistent page, start pressed twice returns to the same page, and start from idle shows on the next tick exactly what next would show |
| Playback.PauseKeepsRun | script.js:281-288 | pause keeps the generator and the array: while playing, pause then start returns to the same page, and pause then next shows exactly what the next tick would have shown |
| Playback.NextOnlyWhenPaused | script.js:290-294 | next while sorting can be dropped from any run of commands; while paused it shows the next event of the run and advances it by one, or shows nothing once the trace is exhausted |
| Playback.SizeWhileSorting | script.js:296-301 | the size slider while sorting records the size only: every later run of commands shows the same frames as without the move |
| Playback.SizeRegenerates | script.js:296-301 | the size slider while idle regenerates an array of the new size |
| Playback.SpeedKeepsRun | script.js:303-311 | `sortSpeed = 501 - value`, the timer re-armed with it only while sorting; from a consistent page every later run of commands shows the same frames at either speed |
| Playback.ChooseKeepsRun | script.js:217-219 | changing the selector once a generator exists keeps it, and every later run of commands shows the same frames as without the change |
| Playback.PlayIgnoresSettings | script.js:217-261 | two pages that differ only in slider, speed, timer period, or (once a run exists) selection show the same frames for any run of commands and end up differing only in those again |
| Playback.HandleContinues | script.js:266-311 | any command but a regeneration (generate, or size while idle) shows the next frames of the same trace, in order, skipping none |
| Playback.PlayDelivers | script.js:217-311 | any mix of start, pause, next, ticks, speed and selector changes shows a contiguous stretch of one trace in order, so pausing and stepping see the same events as an uninterrupted run |
| Playback.PlayStarts | script.js:217-250 | from a state with no generator (page load, or after a regeneration) nothing is shown until a step creates the generator on the array the commands started with; from then on the frames shown are its trace from the first event, in order; without selector changes it is the selected algorithm |

## Left out

- The canvas, pixel geometry and `clearRect`/`fillRect` are left out. Only the colour choice of `drawArray` is modelled (`ColourOf`).
- The model lets every command fire in every state. The page disables generate, the selector, size, speed, start and next while sorting, and pause while idle (`Playback.Enabled` states this). So the while-sorting branches of `Playback.StartToggles`, `Playback.GenerateResets`, `Playback.SizeWhileSorting` and `Playback.SpeedKeepsRun` are not reachable from the page.
- Button labels ("Start", "Pause", "Resume") and the value spans are left out, because nothing reads them.
- Real time is left out. `setInterval`/`clearInterval` become the `timer` field, and each firing is the `Tick` command.
- `Math.random` is not modelled as a source of randomness. The draws become inputs in `[0, 1)`, computed with exact reals rather than doubles.
- `parseInt` of the slider value is left out. The slider holds a natural number.
- The JavaScript generator runtime is left out. A generator is the trace it would yield plus a count of events taken, which yields the same events and snapshots.
- Bar heights are unbounded integers. The algorithms never do arithmetic on them, so nothing wraps.
- InsertionSort.SortCorrect: insertion sort's trace is not proved `Faithful`. Its shifts change the array between events without announcing it (`Engine.InsertionShiftsSilently`).
- HeapSort.SortAllEqual: the exact event sequence of heap sort (only root swaps) is proved only for arrays of equal values. For other arrays the model fixes the sequence by definition, and the proofs give sortedness, faithfulness and strict comparisons.
- Playback.HandleContinues: regeneration (generate, or size while idle) is excluded, because it discards the run. Its effect is stated by `Playback.RegenerateFresh`.
- Playback.PlayDelivers: a run of commands containing a size-slider move is not covered, even while sorting, where that move changes nothing. `Playback.HandleContinues` covers such a move as a single command.
- A `TypeError` raised from a timer callback is not modelled further: the timer stays armed and every tick fails again, and the model's `Crashed` reply with an unchanged state covers each such tick.
