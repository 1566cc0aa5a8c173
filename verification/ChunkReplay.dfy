/** Replaying the chunks of a halting run, each on its own, shows the run again from end to end. */
module ChunkReplay {
  import opened Words
  import opened Wrappers
  import opened MemoryModel
  import opened ZiskInst
  import opened Machine
  import opened RecordReplay
  import opened Traces
  import opened Chunks

  /** A replaying emulator set up with the start state of a trace. */
  function Loaded(r: State, t: EmuTraceStart): State {
    r.(pc := t.pc, sp := t.sp, step := t.step, c := t.c, regs := t.regs, mode := ConsumeMemReads)
  }

  // ---- instructions without a function ----

  /** The filler of an index vector loops on itself. */
  predicate IsFiller(i: Inst) {
    i.op.NoFunc? && !i.setPc && !i.end && i.jmpOffset1 == 0 && i.jmpOffset2 == 0
  }

  /** Only filler lacks a function, only instructions that stay where they are end a run, and
      register operands are main registers. */
  ghost predicate WellBuilt(rom: Rom) {
    forall pc: u64 :: FillerAt(rom, pc) && LastAt(rom, pc) && MainRegsAt(rom, pc)
  }

  predicate MainRegsAt(rom: Rom, pc: u64) {
    GetInstruction(rom, pc).Some? ==> UsesMainRegs(GetInstruction(rom, pc).value)
  }

  predicate LastAt(rom: Rom, pc: u64) {
    GetInstruction(rom, pc).Some? && GetInstruction(rom, pc).value.end ==>
      IsLast(GetInstruction(rom, pc).value)
  }

  predicate FillerAt(rom: Rom, pc: u64) {
    GetInstruction(rom, pc).Some? && GetInstruction(rom, pc).value.op.NoFunc? ==>
      IsFiller(GetInstruction(rom, pc).value)
  }

  lemma FillerLoops(p: Platform, s: State, i: Inst)
    requires GetInstruction(p.rom, s.pc) == Some(i) && IsFiller(i) && Step(p, s).Some?
    ensures Step(p, s).value.pc == s.pc && !Step(p, s).value.end
  {
    hide GetInstruction, SourceA, Rest, IsFiller;
    assert SourceA(s, i).value.pc == s.pc by { SourcesKeepPc(s, i); }
    FillerRest(p.prims, i, SourceA(s, i).value);
  }

  lemma FillerRest(prims: Prims, i: Inst, s1: State)
    requires IsFiller(i) && Rest(prims, i, s1).Some?
    ensures Rest(prims, i, s1).value.pc == s1.pc && !Rest(prims, i, s1).value.end
  {
    hide SourceB, StoreC, Call;
    SourcesKeepPc(s1, i);
    var s2 := SourceB(s1, i).value;
    NoCall(prims, s2);
    StoreKeepsPc(s2, i);
    NextOfFiller(StoreC(s2, i).value, i);
  }

  lemma NoCall(prims: Prims, s: State)
    ensures Call(prims, NoFunc, s) == Some(s)
  {
  }

  lemma NextOfFiller(s: State, i: Inst)
    requires IsFiller(i)
    ensures NextPc(s, i) == s.pc
  {
  }

  lemma SourcesKeepPc(s: State, i: Inst)
    ensures SourceA(s, i).Some? ==> SourceA(s, i).value.pc == s.pc
    ensures SourceB(s, i).Some? ==> SourceB(s, i).value.pc == s.pc
  {
    hide Read, Imm, AddrA, AddrB;
  }

  lemma StoreKeepsPc(s: State, i: Inst)
    ensures StoreC(s, i).Some? ==> StoreC(s, i).value.pc == s.pc
  {
    hide Write, StoreAddr, ValueToStore;
  }

  lemma {:induction false} StuckOnFiller(p: Platform, s: State, n: nat)
    requires WellBuilt(p.rom) && !Operates(p, s) && Run(p, s, n).Some?
    ensures Run(p, s, n).value.pc == s.pc && (n > 0 ==> !Run(p, s, n).value.end)
  {
    hide Step, GetInstruction;
    if n > 0 {
      StuckOnFiller(p, s, n - 1);
      assert FillerAt(p.rom, s.pc);
      FillerLoops(p, Run(p, s, n - 1).value, GetInstruction(p.rom, s.pc).value);
    }
  }

  /** A run that halts never executes filler. */
  lemma HaltingOperates(p: Platform, s: State, m: nat, n: nat)
    requires WellBuilt(p.rom) && Halts(p, s, n) && m < n
    ensures Run(p, s, m).Some? && Operates(p, Run(p, s, m).value)
  {
    hide Step, GetInstruction, Run;
    RunPrefix(p, s, m, n);
    RunAdd(p, s, m, n - m);
    var t := Run(p, s, m).value;
    if !Operates(p, t) {
      StuckOnFiller(p, t, n - m);
    }
  }

  // ---- a chunk of a run ----

  lemma {:induction false} ChunkOperates(p: Platform, s: State, n: nat, from: nat, len: nat)
    requires WellBuilt(p.rom) && Halts(p, s, n) && from + len <= n && Executes(s) && Run(p, s, from).Some?
    ensures AllOperate(p, Run(p, s, from).value, len)
    decreases len
  {
    hide Step, StepGenerate, GetInstruction, Run, Halts, Core;
    if len > 0 {
      ChunkOperates(p, s, n, from, len - 1);
      var start := Run(p, s, from).value;
      RunAdd(p, s, from, len - 1);
      RunKeepsMode(p, s, from);
      HaltingOperates(p, s, from + (len - 1), n);
      RecordFollowsRun(p, start, start, len - 1);
      if Record(p, start, len - 1).Some? {
        CoreFields(Record(p, start, len - 1).value.state, Run(p, s, from + (len - 1)).value);
      }
    }
  }

  /** What a recording sees at each step is what the plain run shows. */
  lemma {:induction false} RecordViews(p: Platform, s: State, n: nat, j: nat)
    requires Executes(s) && Record(p, s, n).Some? && j < n
    ensures |Record(p, s, n).value.views| == n
    ensures Run(p, s, j + 1).Some? && Record(p, s, n).value.views[j] == ViewOf(Run(p, s, j + 1).value)
    decreases n
  {
    hide Step, StepGenerate, Core, Run;
    RecordFollowsRun(p, s, s, n);
    CoreView(Record(p, s, n).value.state, Run(p, s, n).value);
    if n > 1 {
      RecordViews(p, s, n - 1, if j < n - 1 then j else 0);
    }
  }

  lemma CoreView(x: State, y: State)
    requires Core(x) == Core(y)
    ensures ViewOf(x) == ViewOf(y)
  {
  }

  /** Replaying shows the states of the run from number from + 1 on. */
  ghost predicate Shows(p: Platform, s: State, from: nat, views: seq<View>) {
    forall j :: 0 <= j < |views| ==> ShowsAt(p, s, from + j + 1, views[j])
  }

  ghost predicate ShowsAt(p: Platform, s: State, n: nat, view: View) {
    Run(p, s, n).Some? && view == ViewOf(Run(p, s, n).value)
  }

  lemma RecordShows(p: Platform, s: State, from: nat, len: nat)
    requires Executes(s) && Run(p, s, from).Some? && Record(p, Run(p, s, from).value, len).Some?
    ensures |Record(p, Run(p, s, from).value, len).value.views| == len
    ensures Shows(p, s, from, Record(p, Run(p, s, from).value, len).value.views)
  {
    hide Step, StepGenerate, Run, Record;
    var start := Run(p, s, from).value;
    RunKeepsMode(p, s, from);
    var views := Record(p, start, len).value.views;
    if len > 0 {
      RecordViews(p, start, len, 0);
    } else {
      NoViews(p, start);
    }
    forall j | 0 <= j < |views|
      ensures ShowsAt(p, s, from + j + 1, views[j])
    {
      RecordViews(p, start, len, j);
      RunAdd(p, s, from, j + 1);
    }
  }

  lemma NoViews(p: Platform, s: State)
    ensures Record(p, s, 0) == Some(Recorded(s, [], []))
  {
  }

  /** A replayed chunk: every state of the run is shown again, the log is used up exactly, and the
      end is where the next chunk starts. */
  ghost predicate ChunkShown(p: Platform, s: State, from: nat, t: EmuTrace, q: Replayed) {
    && |q.views| == t.steps && Shows(p, s, from, q.views)
    && q.index == |t.memReads|
    && q.state.c == t.lastC && q.state.end == t.end
    && Run(p, s, from + t.steps).Some? && StartOf(q.state) == StartOf(Run(p, s, from + t.steps).value)
  }

  /** Chunk replay. Given the start state and the recorded words of any chunk of a halting run, a
      replaying emulator with arbitrary memory contents succeeds whenever its memory has room for
      the precompile results, and only then; and then it shows the chunk again. */
  lemma ChunkReplays(p: Platform, s: State, n: nat, from: nat, len: nat, t: EmuTrace, r: State)
    requires WellBuilt(p.rom) && s.mode.GenerateMemReads? && Halts(p, s, n) && 0 < len && from + len <= n
    requires ChunkAt(p, s, from, len) == Some(t)
    ensures Run(p, s, from).Some? && t.steps == len
    ensures var replay := Replay(p, Loaded(r, t.startState), t.memReads, 0, t.steps);
            (replay.Some? <==> AllFit(p, Run(p, s, from).value, len, r.mem)) &&
            (replay.Some? ==> ChunkShown(p, s, from, t, replay.value))
  {
    hide Step, StepGenerate, StepConsume, Run, Halts, Record, Replay, AllFit, AllOperate, Core, Shows;
    var start := Run(p, s, from).value;
    var recorded := Record(p, start, len).value;
    var r0 := Loaded(r, t.startState);
    RunKeepsMode(p, s, from);
    ChunkOperates(p, s, n, from, len);
    RecordShows(p, s, from, len);
    assert t.memReads[0..0 + |recorded.words|] == recorded.words;
    ReplayRepeats(p, start, r0, len, t.memReads, 0);
    RecordFollowsRun(p, start, start, len);
    RunAdd(p, s, from, len);
    CoreFields(recorded.state, Run(p, s, from + len).value);
  }

  // ---- the loop that stops at the end flag ----

  function Consumed(x: Option<Replayed>): Option<(State, nat)> {
    if x.Some? then Some((x.value.state, x.value.index)) else None
  }

  /** Replaying n steps, but no step after one that sets the end flag. */
  function UntilEnd(p: Platform, s: State, log: seq<u64>, n: nat): Option<Replayed> {
    if n == 0 then Some(Replayed(s, 0, []))
    else
      var r :- UntilEnd(p, s, log, n - 1);
      if n > 1 && r.state.end then Some(r)
      else
        var (t, k) :- StepConsume(p, r.state, log, r.index);
        Some(Replayed(t, k, r.views + [ViewOf(t)]))
  }

  /** Nothing more happens after a panic or, past the first step, after the end flag. */
  lemma {:induction false} UntilEndStops(p: Platform, s: State, log: seq<u64>, k: nat, n: nat)
    requires 0 < k <= n
    requires UntilEnd(p, s, log, k).Some? ==> UntilEnd(p, s, log, k).value.state.end
    ensures UntilEnd(p, s, log, n) == UntilEnd(p, s, log, k)
    decreases n
  {
    hide StepConsume;
    if k < n {
      UntilEndStops(p, s, log, k, n - 1);
    }
  }

  /** No view but the last has the end flag. */
  predicate EndsLast(views: seq<View>) {
    forall j :: 0 <= j < |views| - 1 ==> !views[j].end
  }

  /** Stopping at the end flag makes no difference when only the last step sets it. */
  lemma {:induction false} LoopsAgree(p: Platform, s: State, log: seq<u64>, n: nat)
    requires Replay(p, s, log, 0, n).Some? && EndsLast(Replay(p, s, log, 0, n).value.views)
    ensures UntilEnd(p, s, log, n) == Replay(p, s, log, 0, n)
    ensures |Replay(p, s, log, 0, n).value.views| == n
    ensures n > 0 ==> Replay(p, s, log, 0, n).value.views[n - 1] == ViewOf(Replay(p, s, log, 0, n).value.state)
  {
    hide StepConsume;
    if n > 0 {
      var before, after := Replay(p, s, log, 0, n - 1).value, Replay(p, s, log, 0, n).value;
      assert forall j :: 0 <= j < |before.views| ==> before.views[j] == after.views[j];
      LoopsAgree(p, s, log, n - 1);
    }
  }

  lemma {:induction false} ReplayStops(p: Platform, s: State, log: seq<u64>, index: nat, k: nat, n: nat)
    requires k <= n && Replay(p, s, log, index, k).None?
    ensures Replay(p, s, log, index, n).None?
    decreases n
  {
    hide StepConsume;
    if k < n {
      ReplayStops(p, s, log, index, k, n - 1);
    }
  }

  /** The loop that stops at the end flag replays every recorded chunk just as the counting loop. */
  lemma ChunkLoopsAgree(p: Platform, s: State, n: nat, from: nat, len: nat, t: EmuTrace, r: State)
    requires WellBuilt(p.rom) && s.mode.GenerateMemReads? && Halts(p, s, n) && 0 < len && from + len <= n
    requires ChunkAt(p, s, from, len) == Some(t)
    requires Replay(p, Loaded(r, t.startState), t.memReads, 0, t.steps).Some?
    ensures UntilEnd(p, Loaded(r, t.startState), t.memReads, t.steps) ==
            Replay(p, Loaded(r, t.startState), t.memReads, 0, t.steps)
  {
    hide Run, Replay, UntilEnd, AllFit, Loaded, ChunkAt;
    ChunkReplays(p, s, n, from, len, t, r);
    var views := Replay(p, Loaded(r, t.startState), t.memReads, 0, t.steps).value.views;
    forall j | 0 <= j < |views| - 1
      ensures !views[j].end
    {
      assert ShowsAt(p, s, from + j + 1, views[j]);
      assert Unfinished(p, s, from + j + 1);
    }
    LoopsAgree(p, Loaded(r, t.startState), t.memReads, t.steps);
  }

  // ---- all chunks together ----

  function SumSteps(traces: seq<EmuTrace>): nat {
    if traces == [] then 0 else SumSteps(traces[..|traces| - 1]) + traces[|traces| - 1].steps
  }

  /** Each chunk starts where the one before it stops, and together they have the steps of the run. */
  lemma ChunksContinue(p: Platform, s: State, k: nat, n: nat, traces: seq<EmuTrace>, b: nat, from: nat)
    requires k > 0 && OwnChunks(p, s, k, n, 1, 0, traces) && b < |traces| && from == b * k
    ensures from + traces[b].steps <= n && 0 < traces[b].steps
    ensures ChunkAt(p, s, from, traces[b].steps) == Some(traces[b])
    ensures if b + 1 < |traces| then traces[b].steps == k else from + traces[b].steps == n
  {
    hide OwnChunks, ChunkAt, NumBlocks;
    OneChunk(p, s, k, n, traces, b, from);
    ChunkLength(p, s, from, Chunks.Min(k, n - from), traces[b]);
    ChunkCount(p, s, k, n, traces);
    CeilBounds(n, k);
    if b + 1 < |traces| {
      assert (b + 1) * k == from + k;
      OneChunk(p, s, k, n, traces, b + 1, from + k);
    }
  }

  lemma OneChunk(p: Platform, s: State, k: nat, n: nat, traces: seq<EmuTrace>, b: nat, from: nat)
    requires k > 0 && OwnChunks(p, s, k, n, 1, 0, traces) && b < |traces| && from == b * k
    ensures from < n && ChunkAt(p, s, from, Chunks.Min(k, n - from)) == Some(traces[b])
  {
    hide ChunkAt;
    assert OwnChunk(p, s, k, n, 0 + b * 1, traces[b]);
  }

  lemma ChunkLength(p: Platform, s: State, from: nat, len: nat, t: EmuTrace)
    requires ChunkAt(p, s, from, len) == Some(t)
    ensures t.steps == len && Run(p, s, from).Some? && t.startState == StartOf(Run(p, s, from).value)
  {
    hide Run, Record;
  }

  /** One thread owns every block. */
  lemma {:induction false} OneOwner(blocks: nat)
    ensures OwnBlocks(blocks, 1, 0) == blocks
  {
    if blocks > 0 {
      OneOwner(blocks - 1);
    }
  }

  lemma {:induction false} StepsAddUp(p: Platform, s: State, k: nat, n: nat, traces: seq<EmuTrace>, b: nat)
    requires k > 0 && OwnChunks(p, s, k, n, 1, 0, traces) && b <= |traces|
    ensures SumSteps(traces[..b]) == if b < |traces| then b * k else n
  {
    hide ChunkAt, OwnChunks, Run;
    OneOwner(NumBlocks(n, k));
    ChunkCount(p, s, k, n, traces);
    if b > 0 {
      StepsAddUp(p, s, k, n, traces, b - 1);
      var from := (b - 1) * k;
      MulNat(b - 1, k);
      ChunksContinue(p, s, k, n, traces, b - 1, from);
      assert traces[..b][..b - 1] == traces[..b - 1];
      assert b * k == from + k;
    }
  }

  lemma MulNat(x: nat, y: nat)
    ensures x * y >= 0
  {
  }

  lemma ChunkCount(p: Platform, s: State, k: nat, n: nat, traces: seq<EmuTrace>)
    requires k > 0 && OwnChunks(p, s, k, n, 1, 0, traces)
    ensures |traces| == NumBlocks(n, k)
  {
    OneOwner(NumBlocks(n, k));
  }

  /** Chunk continuity. The chunks of a halting run have its length in all, and replaying any of
      them ends in the start state of the next. */
  lemma ReplayContinues(p: Platform, s: State, k: nat, n: nat, traces: seq<EmuTrace>, b: nat, from: nat, r: State)
    requires WellBuilt(p.rom) && s.mode.GenerateMemReads? && Halts(p, s, n)
    requires k > 0 && OwnChunks(p, s, k, n, 1, 0, traces) && b < |traces| && from == b * k
    requires Replay(p, Loaded(r, traces[b].startState), traces[b].memReads, 0, traces[b].steps).Some?
    ensures SumSteps(traces) == n
    ensures var q := Replay(p, Loaded(r, traces[b].startState), traces[b].memReads, 0, traces[b].steps).value;
            && ChunkShown(p, s, from, traces[b], q)
            && (b + 1 < |traces| ==> !traces[b].end && StartOf(q.state) == traces[b + 1].startState)
            && (b + 1 == |traces| ==> traces[b].end)
  {
    hide ChunkAt, Run, Replay, AllFit, Loaded, Shows, OwnChunks, SumSteps, WellBuilt;
    StepsAddUp(p, s, k, n, traces, |traces|);
    assert traces[..|traces|] == traces;
    var t := traces[b];
    ChunksContinue(p, s, k, n, traces, b, from);
    ChunkReplays(p, s, n, from, t.steps, t, r);
    ChunkFollows(p, s, k, n, traces, b, from);
  }

  lemma ChunkFollows(p: Platform, s: State, k: nat, n: nat, traces: seq<EmuTrace>, b: nat, from: nat)
    requires Executes(s) && Halts(p, s, n)
    requires k > 0 && OwnChunks(p, s, k, n, 1, 0, traces) && b < |traces| && from == b * k
    ensures Run(p, s, from + traces[b].steps).Some?
    ensures b + 1 < |traces| ==>
              && traces[b + 1].startState == StartOf(Run(p, s, from + traces[b].steps).value) && !traces[b].end
    ensures b + 1 == |traces| ==> traces[b].end
  {
    hide ChunkAt, Run, OwnChunks;
    var t := traces[b];
    ChunksContinue(p, s, k, n, traces, b, from);
    ChunkEnd(p, s, from, t.steps, t);
    if b + 1 < |traces| {
      assert (b + 1) * k == from + k;
      ChunksContinue(p, s, k, n, traces, b + 1, from + k);
      ChunkLength(p, s, from + k, traces[b + 1].steps, traces[b + 1]);
      assert Unfinished(p, s, from + t.steps);
    }
  }

  lemma ChunkEnd(p: Platform, s: State, from: nat, len: nat, t: EmuTrace)
    requires Executes(s) && ChunkAt(p, s, from, len) == Some(t) && len > 0
    ensures Run(p, s, from + len).Some? && t.end == Run(p, s, from + len).value.end
  {
    hide Run, Record, Core;
    var start := Run(p, s, from).value;
    RunKeepsMode(p, s, from);
    RecordFollowsRun(p, start, start, len);
    RunAdd(p, s, from, len);
    CoreFields(Record(p, start, len).value.state, Run(p, s, from + len).value);
  }
}
