/** The playback controller: the page's listeners (generate, start, pause,
    next, the size and speed sliders) and the interval timer's tick, each
    as a transition of the page state, plus the algorithm selector, which
    has no listener and only changes the value `runStep` reads. */
module Playback {
  import opened Arrays
  import opened Traces
  import opened Engine

  /** `canvas.height`: new bar heights are drawn from `1 .. Height`. */
  const Height: int := 500

  /** The value `sortSpeed` starts with. */
  const InitialSpeed: int := 100

  /** `Math.floor(Math.random() * canvas.height) + 1` for a draw `u` of
      `Math.random()`. */
  function Draw(u: real): (h: int)
    requires 0.0 <= u < 1.0
  {
    (u * Height as real).Floor + 1
  }

  /** Every draw of `Math.random()` gives a bar height in `1 .. Height`. */
  lemma DrawInRange(u: real)
    requires 0.0 <= u < 1.0
    ensures 1 <= Draw(u) <= Height
  {
    assert 0.0 <= u * Height as real < Height as real;
  }

  /** Draws of `Math.random()`, one per bar. */
  predicate Draws(us: seq<real>) {
    forall k :: 0 <= k < |us| ==> 0.0 <= us[k] < 1.0
  }

  function Heights(us: seq<real>): (r: seq<int>)
    requires Draws(us)
    ensures |r| == |us|
  {
    seq(|us|, k requires 0 <= k < |us| => Draw(us[k]))
  }

  /** What the user (or the timer) does. The draws of `Math.random()` that
      a regeneration consumes are part of the command. */
  datatype Command =
    | GenerateClick(us: seq<real>)
    | StartClick
    | PauseClick
    | NextClick
    | Tick
    | SizeInput(size: nat, us: seq<real>)
    | SpeedInput(value: int)
    | Choose(name: string)

  /** A regeneration needs one draw per bar of the slider's size. */
  predicate Admissible(s: State, cmd: Command) {
    match cmd
    case GenerateClick(us) => |us| == s.slider && Draws(us)
    case SizeInput(size, us) => s.isSorting || (|us| == size && Draws(us))
    case _ => true
  }

  /** `generateNewArray`: clear the timer and `isSorting`, drop the
      generator, and refill the array with `arraySize` random heights. */
  function Regenerate(s: State, us: seq<real>): (t: State)
    requires |us| == s.slider && Draws(us)
  {
    s.(bars := Heights(us), gen := None, isSorting := false, timer := None)
  }

  /** The pause button's effect: clear the timer and `isSorting`; the
      generator and the array stay as they are. */
  function Pause(s: State): State {
    s.(timer := None, isSorting := false)
  }

  /** One `runStep`, reporting what it showed. */
  function Pull(s: State): (State, seq<Reply>) {
    (RunStep(s).0, [RunStep(s).1])
  }

  /** The page's reaction to one command, and what `runStep` showed if it
      ran. */
  function Handle(s: State, cmd: Command): (State, seq<Reply>)
    requires Admissible(s, cmd)
  {
    match cmd
    case GenerateClick(us) => (Regenerate(s, us), [])
    case StartClick =>
      if s.isSorting then (Pause(s), [])
      else (s.(timer := Some(s.speed), isSorting := true), [])
    case PauseClick => (Pause(s), [])
    case NextClick => if s.isSorting then (s, []) else Pull(s)
    case Tick => if s.timer.Some? then Pull(s) else (s, [])
    case SizeInput(size, us) =>
      var t := s.(slider := size);
      if s.isSorting then (t, []) else (Regenerate(t, us), [])
    case SpeedInput(value) =>
      var t := s.(speed := 501 - value);
      if s.isSorting then (t.(timer := Some(t.speed)), []) else (t, [])
    case Choose(name) => (s.(selection := name), [])
  }

  /** Page load: `array = []`, `sortSpeed = 100`, nothing sorting, no
      generator, then `generateNewArray()`. */
  function Init(slider: nat, selection: string, us: seq<real>): State
    requires |us| == slider && Draws(us)
  {
    Regenerate(State([], None, false, None, selection, InitialSpeed, slider), us)
  }

  /** The timer runs exactly while sorting, always with the current
      `sortSpeed` as its period, and the array is what the generator has
      made of its starting array. */
  predicate Inv(s: State) {
    && Consistent(s)
    && (s.timer.Some? <==> s.isSorting)
    && (s.timer.Some? ==> s.timer.value == s.speed)
  }

  /** After page load nothing runs, no generator exists yet, and the array
      holds one height in `1 .. Height` per slider step. */
  lemma InitState(slider: nat, selection: string, us: seq<real>)
    requires |us| == slider && Draws(us)
    ensures var s := Init(slider, selection, us);
      && Inv(s) && !s.isSorting && s.gen.None? && s.speed == InitialSpeed
      && |s.bars| == slider && forall k :: 0 <= k < |s.bars| ==> 1 <= s.bars[k] <= Height
  {
    RegenerateFresh(State([], None, false, None, selection, InitialSpeed, slider), us);
  }

  /** Regenerating stops everything and drops the generator; the new array
      has the slider's length with every height in `1 .. Height`. */
  lemma RegenerateFresh(s: State, us: seq<real>)
    requires |us| == s.slider && Draws(us)
    ensures var t := Regenerate(s, us);
      && Inv(t) && !t.isSorting && t.timer.None? && t.gen.None?
      && |t.bars| == s.slider
      && (forall k :: 0 <= k < |t.bars| ==> 1 <= t.bars[k] <= Height)
      && t.selection == s.selection && t.speed == s.speed
  {
    forall k | 0 <= k < |us|
      ensures 1 <= Heights(us)[k] <= Height
    {
      DrawInRange(us[k]);
    }
  }

  /** The controls `toggleControls` leaves enabled: generate, the selector,
      both sliders, start and next only while idle, pause only while
      sorting. The timer's tick is not a control. */
  predicate Enabled(s: State, cmd: Command) {
    match cmd
    case PauseClick => s.isSorting
    case Tick => true
    case _ => !s.isSorting
  }

  /** With only enabled controls, start always starts, next always steps,
      generate and the size slider never interrupt a playing run, and the
      speed slider never touches the timer; pause is only pressed while
      playing and stops it. */
  lemma EnabledCommands(s: State, cmd: Command)
    requires Inv(s) && Enabled(s, cmd) && Admissible(s, cmd)
    ensures cmd.StartClick? ==> var t := Handle(s, cmd).0; t.isSorting && t.timer == Some(s.speed)
    ensures cmd.NextClick? ==> Handle(s, cmd) == Pull(s)
    ensures cmd.GenerateClick? || cmd.SizeInput? ==> s.timer.None?
    ensures cmd.SizeInput? ==> Handle(s, cmd).0.gen.None?
    ensures cmd.SpeedInput? ==> Handle(s, cmd).0.timer.None?
    ensures cmd.PauseClick? ==> s.timer.Some? && Handle(s, cmd).0.timer.None?
  {
  }

  /** Every command keeps the invariant. */
  lemma HandleKeepsInv(s: State, cmd: Command)
    requires Inv(s) && Admissible(s, cmd)
    ensures Inv(Handle(s, cmd).0)
  {
    match cmd
    case GenerateClick(us) => RegenerateFresh(s, us);
    case SizeInput(size, us) =>
      if !s.isSorting {
        RegenerateFresh(s.(slider := size), us);
      }
    case NextClick => RunStepConsistent(s);
    case Tick => RunStepConsistent(s);
    case _ =>
  }

  /** Start while sorting does exactly what pause does (the page disables
      the start button while sorting, so only the listener's own branch is
      stated here). Otherwise it arms the timer with the current speed and
      sets `isSorting`, and leaves the generator and the array alone: a
      paused run resumes where it was: pressing start twice comes back to
      the same page, and starting from idle shows on the first tick exactly
      what next would have shown. */
  lemma StartToggles(s: State)
    ensures s.isSorting ==> Handle(s, StartClick) == Handle(s, PauseClick)
    ensures !s.isSorting ==>
      var t := Handle(s, StartClick).0;
      t.isSorting && t.timer == Some(s.speed) && t.gen == s.gen && t.bars == s.bars
    ensures Inv(s) ==> Play(s, [StartClick, StartClick]) == (s, [])
    ensures Inv(s) && !s.isSorting ==> Play(s, [StartClick, Tick]).1 == Play(s, [NextClick]).1
  {
    var t := Handle(s, StartClick).0;
    PlayTwo(s, StartClick, StartClick);
    PlayTwo(s, StartClick, Tick);
    PlayOne(s, NextClick);
    if Inv(s) && !s.isSorting {
      assert Generator(t) == Generator(s);
    }
  }

  /** Pause stops the timer and clears `isSorting` but keeps the run:
      pausing and starting again comes back to the same page, and pausing
      and stepping shows exactly what the timer's next tick would have. */
  lemma PauseKeepsRun(s: State)
    ensures var t := Handle(s, PauseClick).0;
      !t.isSorting && t.timer.None? && t.gen == s.gen && t.bars == s.bars
    ensures Inv(s) && s.isSorting ==> Play(s, [PauseClick, StartClick]) == (s, [])
    ensures Inv(s) && s.isSorting ==> Play(s, [PauseClick, NextClick]).1 == Play(s, [Tick]).1
  {
    var t := Handle(s, PauseClick).0;
    PlayTwo(s, PauseClick, StartClick);
    PlayTwo(s, PauseClick, NextClick);
    PlayOne(s, Tick);
    assert Generator(t) == Generator(s);
  }

  /** Next does nothing while sorting: it can be dropped from any run of
      commands. Otherwise it is one `runStep`, which on an existing run
      shows the next event of its trace, or nothing once the trace is
      exhausted. */
  lemma NextOnlyWhenPaused(s: State, cmds: seq<Command>)
    ensures s.isSorting ==> Handle(s, NextClick) == (s, [])
    ensures !s.isSorting ==> Handle(s, NextClick) == (RunStep(s).0, [RunStep(s).1])
    ensures s.isSorting && Steady(cmds) ==>
      Steady([NextClick] + cmds) && Play(s, [NextClick] + cmds) == Play(s, cmds)
    ensures Inv(s) && !s.isSorting && s.gen.Some? ==>
      var (t, rs) := Handle(s, NextClick);
      var c := s.gen.value;
      && Continues(s, t, rs)
      && t.gen.value.taken == (if c.taken < |Trace(c.alg, c.start).steps| then c.taken + 1 else c.taken)
  {
    if s.isSorting && Steady(cmds) {
      var all := [NextClick] + cmds;
      assert all[1..] == cmds;
      assert Steady(all);
      var p := Play(s, cmds);
      assert Play(s, all) == (p.0, [] + p.1);
      assert [] + p.1 == p.1;
    }
    if Inv(s) && !s.isSorting && s.gen.Some? {
      PullContinues(s);
      RunStepDelivers(s);
    }
  }

  /** The size listener while sorting only records the new size: the array
      and the run are untouched until the next regeneration. The page
      disables the slider while sorting, so this is the listener's branch,
      not something a user can reach. */
  lemma SizeWhileSorting(s: State, size: nat, us: seq<real>, cmds: seq<Command>)
    requires s.isSorting
    ensures Handle(s, SizeInput(size, us)) == (s.(slider := size), [])
    ensures Steady(cmds) ==> Play(Handle(s, SizeInput(size, us)).0, cmds).1 == Play(s, cmds).1
  {
    if Steady(cmds) {
      PlayIgnoresSettings(Handle(s, SizeInput(size, us)).0, s, cmds);
    }
  }

  /** The generate listener clears the timer and the generator and shows a
      fresh array of the slider's length. The page enables the button only
      while idle, so from the page it never interrupts a playing run; it
      does discard a paused one. */
  lemma GenerateResets(s: State, us: seq<real>)
    requires |us| == s.slider && Draws(us)
    ensures var (t, shown) := Handle(s, GenerateClick(us));
      && shown == [] && !t.isSorting && t.timer.None? && t.gen.None?
      && |t.bars| == s.slider && (forall k :: 0 <= k < |t.bars| ==> 1 <= t.bars[k] <= Height)
  {
    RegenerateFresh(s, us);
  }

  /** Moving the size slider while no run is playing regenerates an array of
      the new size and drops the generator. */
  lemma SizeRegenerates(s: State, size: nat, us: seq<real>)
    requires !s.isSorting && |us| == size && Draws(us)
    ensures var t := Handle(s, SizeInput(size, us)).0;
      && t.slider == size && |t.bars| == size && t.gen.None? && !t.isSorting && t.timer.None?
      && (forall k :: 0 <= k < |t.bars| ==> 1 <= t.bars[k] <= Height)
  {
    RegenerateFresh(s.(slider := size), us);
  }

  /** The speed listener sets `sortSpeed = 501 - value` and, while sorting,
      re-arms the timer with it; the run, the array and `isSorting` are
      untouched. The page disables the slider while sorting, so the re-arm
      branch is not reachable from the page. The speed only paces the
      timer: whatever follows shows the same frames at either speed. */
  lemma SpeedKeepsRun(s: State, value: int, cmds: seq<Command>)
    ensures var t := Handle(s, SpeedInput(value)).0;
      && t.speed == 501 - value
      && t.bars == s.bars && t.gen == s.gen && t.isSorting == s.isSorting
      && (t.timer.Some? <==> s.timer.Some? || s.isSorting)
      && (s.isSorting ==> t.timer == Some(501 - value))
      && (!s.isSorting ==> t.timer == s.timer)
    ensures Inv(s) && Steady(cmds) ==> Play(Handle(s, SpeedInput(value)).0, cmds).1 == Play(s, cmds).1
  {
    if Inv(s) && Steady(cmds) {
      PlayIgnoresSettings(Handle(s, SpeedInput(value)).0, s, cmds);
    }
  }

  /** The selector has no listener: choosing another algorithm while a run
      is paused keeps the old generator, and the next step continues the old
      algorithm's trace: whatever follows shows the same frames as without
      the choice. */
  lemma ChooseKeepsRun(s: State, name: string, cmds: seq<Command>)
    requires s.gen.Some?
    ensures Handle(s, Choose(name)).0.gen == s.gen
    ensures RunStep(Handle(s, Choose(name)).0).0.gen.value.alg == s.gen.value.alg
    ensures Steady(cmds) ==> Play(Handle(s, Choose(name)).0, cmds).1 == Play(s, cmds).1
  {
    if Steady(cmds) {
      PlayIgnoresSettings(Handle(s, Choose(name)).0, s, cmds);
    }
  }

  // ---------------------------------------------------------------------
  // Runs of commands

  /** Commands that are neither the generate button nor the size slider.
      The size slider regenerates only when idle; its effect while sorting
      is stated by `SizeWhileSorting` and `HandleContinues`. */
  predicate Steady(cmds: seq<Command>) {
    forall k :: 0 <= k < |cmds| ==> !cmds[k].GenerateClick? && !cmds[k].SizeInput?
  }

  /** The page's reaction to a sequence of commands, and everything shown. */
  function Play(s: State, cmds: seq<Command>): (State, seq<Reply>)
    requires Steady(cmds)
    decreases |cmds|
  {
    if |cmds| == 0 then (s, [])
    else
      var (t, r) := Handle(s, cmds[0]);
      var (u, rs) := Play(t, cmds[1..]);
      (u, r + rs)
  }

  lemma PlayOne(s: State, c: Command)
    requires !c.GenerateClick? && !c.SizeInput?
    ensures Steady([c]) && Play(s, [c]) == Handle(s, c)
  {
    assert [c][1..] == [];
    assert Handle(s, c).1 + [] == Handle(s, c).1;
  }

  lemma PlayTwo(s: State, c1: Command, c2: Command)
    requires !c1.GenerateClick? && !c1.SizeInput? && !c2.GenerateClick? && !c2.SizeInput?
    ensures Steady([c1, c2])
    ensures var (t, r1) := Handle(s, c1);
      Play(s, [c1, c2]) == (Handle(t, c2).0, r1 + Handle(t, c2).1)
  {
    assert [c1, c2][1..] == [c2];
    PlayOne(Handle(s, c1).0, c2);
  }

  /** The frames of the events shown, in order. */
  function Shown(rs: seq<Reply>): seq<Frame> {
    if |rs| == 0 then []
    else (if rs[0].Drawn? then [rs[0].frame] else []) + Shown(rs[1..])
  }

  /** The frames of a stretch of a trace. */
  function FramesOf(steps: seq<Step>): (r: seq<Frame>)
    ensures |r| == |steps|
  {
    seq(|steps|, k requires 0 <= k < |steps| => FrameOf(steps[k].event))
  }

  lemma {:induction false} ShownAppend(r1: seq<Reply>, r2: seq<Reply>)
    ensures Shown(r1 + r2) == Shown(r1) + Shown(r2)
    decreases |r1|
  {
    if |r1| > 0 {
      assert (r1 + r2)[1..] == r1[1..] + r2;
      ShownAppend(r1[1..], r2);
    } else {
      assert r1 + r2 == r2;
    }
  }

  /** `u` continues the run `s` holds, and `rs` shows exactly the stretch
      of its trace between the two positions: nothing skipped, nothing
      repeated, nothing thrown. */
  predicate Continues(s: State, u: State, rs: seq<Reply>)
    requires s.gen.Some?
  {
    var c := s.gen.value;
    var steps := Trace(c.alg, c.start).steps;
    && Inv(u) && u.gen.Some?
    && u.gen.value.alg == c.alg && u.gen.value.start == c.start
    && c.taken <= u.gen.value.taken <= |steps|
    && Shown(rs) == FramesOf(steps[c.taken .. u.gen.value.taken])
    && Crashed !in rs
  }

  /** One command other than a regeneration continues an existing run: it
      shows either nothing, the next event of the trace, or `done`. The size
      slider while sorting is such a command. */
  lemma HandleContinues(s: State, cmd: Command)
    requires Inv(s) && s.gen.Some? && !cmd.GenerateClick? && (cmd.SizeInput? ==> s.isSorting)
    ensures Continues(s, Handle(s, cmd).0, Handle(s, cmd).1)
  {
    match cmd
    case SizeInput(_, _) => HandleKeepsInv(s, cmd); StillContinues(s, Handle(s, cmd).0);
    case NextClick => if !s.isSorting { PullContinues(s); } else { StillContinues(s, s); }
    case Tick => if s.timer.Some? { PullContinues(s); } else { StillContinues(s, s); }
    case StartClick => HandleKeepsInv(s, cmd); StillContinues(s, Handle(s, cmd).0);
    case PauseClick => HandleKeepsInv(s, cmd); StillContinues(s, Handle(s, cmd).0);
    case SpeedInput(_) => HandleKeepsInv(s, cmd); StillContinues(s, Handle(s, cmd).0);
    case Choose(_) => HandleKeepsInv(s, cmd); StillContinues(s, Handle(s, cmd).0);
  }

  /** A command that runs no step keeps the generator where it was. */
  lemma StillContinues(s: State, u: State)
    requires s.gen.Some? && Inv(u) && u.gen == s.gen
    ensures Continues(s, u, [])
  {
    var c := s.gen.value;
    assert Trace(c.alg, c.start).steps[c.taken .. c.taken] == [];
  }

  /** One `runStep` on an existing generator shows the next event of its
      trace, or nothing once the trace is exhausted. */
  lemma PullContinues(s: State)
    requires Inv(s) && s.gen.Some?
    ensures Continues(s, Pull(s).0, Pull(s).1)
  {
    RunStepConsistent(s);
    var c := s.gen.value;
    var steps := Trace(c.alg, c.start).steps;
    var r, k := RunStep(s).1, c.taken;
    if k < |steps| {
      var k' := k + 1;
      RunStepDelivers(s);
      assert RunStep(s).0.gen.value.taken == k';
      FramesOfOne(steps, k, k');
      assert Shown([r]) == [r.frame] + Shown([]);
    } else {
      assert Shown([r]) == [] + Shown([]);
      assert steps[k .. k] == [];
    }
  }

  lemma FramesOfOne(steps: seq<Step>, k: nat, k': nat)
    requires k < |steps| && k' == k + 1
    ensures FramesOf(steps[k .. k']) == [FrameOf(steps[k].event)]
  {
    assert steps[k .. k'] == [steps[k]];
  }

  /** Continuing twice is continuing. */
  lemma ContinuesTrans(s: State, t: State, u: State, r1: seq<Reply>, r2: seq<Reply>)
    requires s.gen.Some? && Continues(s, t, r1) && Continues(t, u, r2)
    ensures Continues(s, u, r1 + r2)
  {
    var c := s.gen.value;
    var steps := Trace(c.alg, c.start).steps;
    ShownAppend(r1, r2);
    FramesOfSplit(steps, c.taken, t.gen.value.taken, u.gen.value.taken);
  }

  lemma FramesOfSplit(steps: seq<Step>, i: nat, m: nat, n: nat)
    requires i <= m <= n <= |steps|
    ensures FramesOf(steps[i .. n]) == FramesOf(steps[i .. m]) + FramesOf(steps[m .. n])
  {
    assert steps[i .. n] == steps[i .. m] + steps[m .. n];
  }

  /** A run of commands that never regenerates continues one generator and
      shows a contiguous stretch of its trace, from where it stood, in
      order: pausing, resuming, stepping, changing speed or choosing another
      algorithm neither skips nor repeats an event, and nothing throws. */
  lemma {:induction false} PlayDelivers(s: State, cmds: seq<Command>)
    requires Inv(s) && s.gen.Some? && Steady(cmds)
    ensures Continues(s, Play(s, cmds).0, Play(s, cmds).1)
    decreases |cmds|
  {
    if |cmds| > 0 {
      var h := Handle(s, cmds[0]);
      HandleContinues(s, cmds[0]);
      var rest := cmds[1..];
      assert Steady(rest);
      var p := Play(h.0, rest);
      PlayDelivers(h.0, rest);
      assert Play(s, cmds) == (p.0, h.1 + p.1);
      ContinuesTrans(s, h.0, p.0, h.1, p.1);
    } else {
      assert Play(s, cmds) == (s, []);
      assert Shown([]) == [];
    }
  }

  /** What decides the frames still to come: the settings (slider, speed,
      the timer's period) are blanked, and so is the selection once a
      generator exists, since `runStep` then no longer reads it. */
  function Essence(s: State): State {
    s.(slider := 0, speed := 0, timer := if s.timer.Some? then Some(0) else None,
       selection := if s.gen.Some? then [] else s.selection)
  }

  /** Two pages that differ only in their settings react to a command
      other than a regeneration alike. */
  lemma HandleIgnoresSettings(s: State, t: State, cmd: Command)
    requires Essence(s) == Essence(t) && !cmd.GenerateClick? && !cmd.SizeInput?
    ensures Handle(s, cmd).1 == Handle(t, cmd).1
    ensures Essence(Handle(s, cmd).0) == Essence(Handle(t, cmd).0)
  {
    assert s.isSorting == Essence(s).isSorting && t.isSorting == Essence(t).isSorting;
    assert s.timer.Some? == Essence(s).timer.Some? && t.timer.Some? == Essence(t).timer.Some?;
    match cmd
    case NextClick => RunStepIgnoresSettings(s, t);
    case Tick => RunStepIgnoresSettings(s, t);
    case StartClick =>
    case PauseClick =>
    case SpeedInput(_) =>
    case Choose(_) =>
  }

  lemma RunStepIgnoresSettings(s: State, t: State)
    requires Essence(s) == Essence(t)
    ensures RunStep(s).1 == RunStep(t).1
    ensures Essence(RunStep(s).0) == Essence(RunStep(t).0)
  {
    assert s.bars == Essence(s).bars && t.bars == Essence(t).bars;
    assert s.gen == Essence(s).gen && t.gen == Essence(t).gen;
    assert s.gen.None? ==> s.selection == Essence(s).selection && t.selection == Essence(t).selection;
    assert Generator(s) == Generator(t);
  }

  /** Settings never change what is shown: two pages that differ only in
      slider, speed, timer period or (once a run exists) selection show the
      same frames for the same run of commands, and end up differing only
      in those settings again. */
  lemma {:induction false} PlayIgnoresSettings(s: State, t: State, cmds: seq<Command>)
    requires Essence(s) == Essence(t) && Steady(cmds)
    ensures Play(s, cmds).1 == Play(t, cmds).1
    ensures Essence(Play(s, cmds).0) == Essence(Play(t, cmds).0)
    decreases |cmds|
  {
    if |cmds| > 0 {
      var rest := cmds[1..];
      assert Steady(rest);
      HandleIgnoresSettings(s, t, cmds[0]);
      PlayIgnoresSettings(Handle(s, cmds[0]).0, Handle(t, cmds[0]).0, rest);
    }
  }

  /** From a state without a generator (page load, or just after a
      regeneration) a run of commands shows nothing until a step creates
      the generator, on the array as it then stands, which is the array the
      run started with; from then on it shows the trace of that generator
      from its first event, in order, skipping none. Without selector
      changes the generator is the one the selector named at the start. */
  lemma {:induction false} PlayStarts(s: State, cmds: seq<Command>)
    requires Inv(s) && s.gen.None? && Steady(cmds)
    ensures var (t, rs) := Play(s, cmds);
      && Inv(t)
      && (t.gen.None? ==> Shown(rs) == [] && t.bars == s.bars)
      && (t.gen.Some? ==>
            var c := t.gen.value;
            && c.start == s.bars
            && c.taken <= |Trace(c.alg, c.start).steps|
            && Shown(rs) == FramesOf(Trace(c.alg, c.start).steps[0 .. c.taken]))
      && (t.gen.Some? && (forall k :: 0 <= k < |cmds| ==> !cmds[k].Choose?) ==>
            Lookup(s.selection) == Some(t.gen.value.alg))
    decreases |cmds|
  {
    if |cmds| == 0 {
      assert Play(s, cmds) == (s, []);
      assert Shown([]) == [];
    } else {
      var cmd, rest := cmds[0], cmds[1..];
      var h := Handle(s, cmd);
      HandleKeepsInv(s, cmd);
      assert Steady(rest);
      var p := Play(h.0, rest);
      assert Play(s, cmds) == (p.0, h.1 + p.1);
      ShownAppend(h.1, p.1);
      if h.0.gen.None? {
        IdleShowsNothing(s, cmd);
        PlayStarts(h.0, rest);
        assert (forall k :: 0 <= k < |cmds| ==> !cmds[k].Choose?) ==>
          (forall k :: 0 <= k < |rest| ==> !rest[k].Choose?) && h.0.selection == s.selection by {
          if forall k :: 0 <= k < |cmds| ==> !cmds[k].Choose? {
            assert !cmds[0].Choose?;
            forall k | 0 <= k < |rest| ensures !rest[k].Choose? {
              assert rest[k] == cmds[k + 1];
            }
          }
        }
      } else {
        FirstStep(s, cmd);
        var c := h.0.gen.value;
        var steps := Trace(c.alg, c.start).steps;
        PlayDelivers(h.0, rest);
        FramesOfSplit(steps, 0, c.taken, p.0.gen.value.taken);
      }
    }
  }

  /** A command that leaves the generator absent shows nothing and keeps
      the array and, unless it is a selector change, the selection. */
  lemma IdleShowsNothing(s: State, cmd: Command)
    requires Inv(s) && s.gen.None? && Admissible(s, cmd) && !cmd.GenerateClick? && !cmd.SizeInput?
    requires Handle(s, cmd).0.gen.None?
    ensures Shown(Handle(s, cmd).1) == [] && Handle(s, cmd).0.bars == s.bars
    ensures !cmd.Choose? ==> Handle(s, cmd).0.selection == s.selection
  {
    match cmd
    case NextClick =>
      if !s.isSorting {
        RunStepCrashes(s);
        assert Shown([Crashed]) == [] + Shown([]);
      }
    case Tick =>
      if s.timer.Some? {
        RunStepCrashes(s);
        assert Shown([Crashed]) == [] + Shown([]);
      }
    case StartClick =>
    case PauseClick =>
    case SpeedInput(_) =>
    case Choose(_) =>
  }

  /** The command that creates the generator starts it on the current
      array, for the selected algorithm, and shows its first event (or
      `done`, when the trace is empty). */
  lemma FirstStep(s: State, cmd: Command)
    requires Inv(s) && s.gen.None? && Admissible(s, cmd) && !cmd.GenerateClick? && !cmd.SizeInput?
    requires Handle(s, cmd).0.gen.Some?
    ensures var (u, r) := Handle(s, cmd);
      var c := u.gen.value;
      && Inv(u) && c.start == s.bars && Lookup(s.selection) == Some(c.alg)
      && c.taken <= |Trace(c.alg, c.start).steps|
      && Shown(r) == FramesOf(Trace(c.alg, c.start).steps[0 .. c.taken])
  {
    HandleKeepsInv(s, cmd);
    assert (cmd.NextClick? && !s.isSorting) || (cmd.Tick? && s.timer.Some?);
    RunStepContinues(s);
    var r := RunStep(s).1;
    var c0 := Generator(s).value;
    var steps := Trace(c0.alg, c0.start).steps;
    if 0 < |steps| {
      RunStepDelivers(s);
      FramesOfOne(steps, 0, 1);
      assert Shown([r]) == [r.frame] + Shown([]);
    } else {
      assert Shown([r]) == [] + Shown([]);
      assert steps[0 .. 0] == [];
    }
  }
}
