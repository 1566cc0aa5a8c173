/** Whole runs: recorded, replayed, and cut into chunks. */
module Traces {
  import opened Words
  import opened Wrappers
  import opened MemoryModel
  import opened MemoryLemmas
  import opened Machine
  import opened RecordReplay

  datatype EmuTraceStart = EmuTraceStart(pc: u64, sp: u64, c: u64, step: nat, regs: Words32)

  datatype EmuTrace = EmuTrace(startState: EmuTraceStart, lastC: u64, steps: nat, memReads: seq<u64>, end: bool)

  function StartOf(s: State): EmuTraceStart {
    EmuTraceStart(s.pc, s.sp, s.c, s.step, s.regs)
  }

  function NewTrace(s: State): EmuTrace {
    EmuTrace(StartOf(s), 0, 0, [], false)
  }

  /** A trace after one more step, which reached s and logged words. */
  function Extend(t: EmuTrace, s: State, words: seq<u64>): EmuTrace {
    t.(lastC := s.c, end := s.end, steps := t.steps + 1, memReads := t.memReads + words)
  }

  /** The visible effect of a step. */
  datatype View = View(pc: u64, a: u64, c: u64, flag: bool, end: bool, regs: Words32)

  function ViewOf(s: State): View {
    View(s.pc, s.a, s.c, s.flag, s.end, s.regs)
  }

  // ---- n steps ----

  function Run(p: Platform, s: State, n: nat): Option<State> {
    if n == 0 then Some(s)
    else
      var t :- Run(p, s, n - 1);
      Step(p, t)
  }

  datatype Recorded = Recorded(state: State, words: seq<u64>, views: seq<View>)

  function Record(p: Platform, s: State, n: nat): Option<Recorded> {
    if n == 0 then Some(Recorded(s, [], []))
    else
      var r :- Record(p, s, n - 1);
      var (t, ws) :- StepGenerate(p, r.state);
      Some(Recorded(t, r.words + ws, r.views + [ViewOf(t)]))
  }

  datatype Replayed = Replayed(state: State, index: nat, views: seq<View>)

  function Replay(p: Platform, s: State, log: seq<u64>, index: nat, n: nat): Option<Replayed> {
    if n == 0 then Some(Replayed(s, index, []))
    else
      var r :- Replay(p, s, log, index, n - 1);
      var (t, k) :- StepConsume(p, r.state, log, r.index);
      Some(Replayed(t, k, r.views + [ViewOf(t)]))
  }

  // ---- recording is invisible, over whole runs ----

  function RecordedCore(x: Option<Recorded>): Option<State> {
    if x.Some? then Some(Core(x.value.state)) else None
  }

  function RecordedWords(x: Option<Recorded>): Option<seq<u64>> {
    if x.Some? then Some(x.value.words) else None
  }

  lemma {:induction false} RunAdd(p: Platform, s: State, m: nat, n: nat)
    ensures Run(p, s, m).Some? ==> Run(p, s, m + n) == Run(p, Run(p, s, m).value, n)
    ensures Run(p, s, m).None? ==> Run(p, s, m + n).None?
    decreases n
  {
    hide Step;
    if n > 0 {
      RunAdd(p, s, m, n - 1);
    }
  }

  lemma {:induction false} RunKeepsMode(p: Platform, s: State, n: nat)
    requires Run(p, s, n).Some?
    ensures Run(p, s, n).value.mode == s.mode && Run(p, s, n).value.step == s.step + n
  {
    hide Step;
    if n > 0 {
      RunKeepsMode(p, s, n - 1);
      StepKeepsMode(p, Run(p, s, n - 1).value);
    }
  }

  /** A recording run passes through the states of the plain run, up to b and the precompile
      buffers, from any start that agrees up to these; its log does not depend on them. */
  lemma {:induction false} RecordFollowsRun(p: Platform, s: State, t: State, n: nat)
    requires Core(s) == Core(t) && Executes(s)
    ensures RecordedCore(Record(p, s, n)) == CoreOf(Run(p, t, n))
    ensures RecordedWords(Record(p, s, n)) == RecordedWords(Record(p, t, n))
    ensures RecordedCore(Record(p, s, n)) == RecordedCore(Record(p, t, n))
  {
    hide Step, StepGenerate;
    if n > 0 {
      RecordFollowsRun(p, s, t, n - 1);
      if Run(p, t, n - 1).Some? {
        RunKeepsMode(p, t, n - 1);
        var u := Run(p, t, n - 1).value;
        var x, y := Record(p, s, n - 1).value.state, Record(p, t, n - 1).value.state;
        RecordingInvisible(p, x, u);
        RecordingInvisible(p, y, u);
        RecordingInvisible(p, x, y);
      }
    }
  }

  // ---- record and replay ----

  /** Every instruction of the run has an operation. */
  ghost predicate AllOperate(p: Platform, s: State, n: nat) {
    n > 0 ==>
      AllOperate(p, s, n - 1) &&
      (Record(p, s, n - 1).Some? ==> Operates(p, Record(p, s, n - 1).value.state))
  }

  /** Every precompile of the run stores its results where memory m has a section. */
  ghost predicate AllFit(p: Platform, s: State, n: nat, m: Memory) {
    n > 0 ==>
      AllFit(p, s, n - 1, m) &&
      (Record(p, s, n - 1).Some? ==> OutputsFit(m, StepOutputs(p, Record(p, s, n - 1).value.state)))
  }

  lemma LayoutOutputs(m: Memory, m': Memory, outs: seq<(u64, nat, nat)>)
    requires SameLayout(m, m')
    ensures OutputsFit(m, outs) == OutputsFit(m', outs)
  {
    forall o | o in outs
      ensures RangeAccessible(m, o.0, o.2) == RangeAccessible(m', o.0, o.2)
    {
      LayoutRange(m, m', o.0, o.2);
    }
  }

  /** Replaying n recorded steps from the recorded words repeats every visible effect and consumes
      exactly the words recorded. It succeeds whenever the replaying memory, whatever its contents,
      has room for the precompile results, and only then. */
  lemma {:induction false} ReplayRepeats(p: Platform, s: State, r: State, n: nat, log: seq<u64>, k: nat)
    requires Matches(s, r) && Record(p, s, n).Some? && AllOperate(p, s, n)
    requires LoggedAt(log, k, Record(p, s, n).value.words)
    ensures Replay(p, r, log, k, n).Some? <==> AllFit(p, s, n, r.mem)
    ensures Replay(p, r, log, k, n).Some? ==> Repeats(Record(p, s, n).value, Replay(p, r, log, k, n).value, k, n)
    ensures Replay(p, r, log, k, n).Some? ==> SameLayout(r.mem, Replay(p, r, log, k, n).value.state.mem)
  {
    hide StepGenerate, StepConsume, LoggedAt, SameLayout, OutputsFit, StepOutputs, Operates;
    if n > 0 {
      var before := Record(p, s, n - 1).value;
      var (t, ws) := StepGenerate(p, before.state).value;
      LoggedSplit(log, k, before.words, ws);
      ReplayRepeats(p, s, r, n - 1, log, k);
      if Replay(p, r, log, k, n - 1).Some? {
        var replayed := Replay(p, r, log, k, n - 1).value;
        LayoutOutputs(r.mem, replayed.state.mem, StepOutputs(p, before.state));
        StepReplayed(p, before.state, replayed.state, log, replayed.index);
        if StepConsume(p, replayed.state, log, replayed.index).Some? {
          var stepped := StepConsume(p, replayed.state, log, replayed.index).value.0;
          LayoutTransitive(r.mem, replayed.state.mem, stepped.mem);
          ReproducesView(t, stepped);
        }
      }
    } else {
      LayoutReflexive(r.mem);
    }
  }

  /** The replay shows the same visible effects, ends in a matching state, and has consumed exactly
      the recorded words from position k on. */
  ghost predicate Repeats(recorded: Recorded, replayed: Replayed, k: nat, n: nat) {
    && replayed.views == recorded.views
    && replayed.index == k + |recorded.words|
    && Matches(recorded.state, replayed.state)
    && (n > 0 ==> Reproduces(recorded.state, replayed.state))
  }

  lemma LayoutReflexive(m: Memory)
    ensures SameLayout(m, m)
  {
  }

  lemma LayoutTransitive(m: Memory, m1: Memory, m2: Memory)
    requires SameLayout(m, m1) && SameLayout(m1, m2)
    ensures SameLayout(m, m2)
  {
  }

  lemma ReproducesView(s: State, r: State)
    requires Reproduces(s, r)
    ensures ViewOf(s) == ViewOf(r)
  {
  }
}
