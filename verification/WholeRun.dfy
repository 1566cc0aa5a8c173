/** A program's run from its file to its replayed chunks. */
module WholeRun {
  import opened Words
  import opened Wrappers
  import opened MemoryModel
  import opened Machine
  import opened Traces
  import opened Chunks
  import opened Riscv
  import opened RiscvMemory
  import opened Program
  import opened Bios
  import opened Elf2Rom
  import opened Boot
  import C = ChunkReplay
  import E = EmuContext
  import Z = ZiskEmulator

  /** The state in which recording starts, for a file and an input. */
  ghost function FirstState(sections: seq<ElfSection>, input: seq<u8>): State
    requires E.Loadable(RoItems(sections), input)
  {
    Z.Start(RoItems(sections), input)
  }

  /** A rom and a code map for the file, and an input that fits. */
  ghost predicate Launched(p: Platform, sections: seq<ElfSection>, entry: u64, code: Code, input: seq<u8>) {
    && RomFor(p.rom, sections, entry) && CodeOf(code, sections)
    && E.Loadable(RoItems(sections), input) && RamAligned(sections)
  }

  lemma LaunchedReady(p: Platform, sections: seq<ElfSection>, entry: u64, code: Code, input: seq<u8>)
    requires Launched(p, sections, entry, code, input)
    ensures Ready(p, FirstState(sections, input), sections, entry, code) && C.WellBuilt(p.rom)
    ensures FirstState(sections, input).mode.GenerateMemReads?
  {
    hide RomFor, CodeOf, E.Loadable, RamAligned, E.InitialMemory, RoItems, Accessible, BootAccessible, C.WellBuilt;
    InitialReady(sections, input);
    EntryRoom(p.rom, sections, entry);
  }

  /** How many steps the emulator takes for a program that returns after n instructions. */
  ghost function StepsToReturn(sections: seq<ElfSection>, code: Code, h: Hart, n: nat): nat {
    BootSteps(sections) + MicroCount(code, h, n) + 166
  }

  /** And for one that exits by a system call after n instructions. */
  ghost function StepsToExit(sections: seq<ElfSection>, code: Code, h: Hart, n: nat): nat {
    BootSteps(sections) + MicroCount(code, h, n) + 1 + 167
  }

  /** The program ends one way or the other, and the run of the emulator has this length. */
  ghost predicate Ends(sections: seq<ElfSection>, code: Code, h: Hart, n: nat, w: seq<u64>, total: nat) {
    || (Returns(code, h, n, EntryAddress(sections) + 0x14, w) && total == StepsToReturn(sections, code, h, n))
    || (AsksToExit(code, h, n, EntryAddress(sections) + 0x38, w) && total == StepsToExit(sections, code, h, n))
  }

  lemma ReturnHalts(p: Platform, s: State, m: nat, h: Hart, w: seq<u64>)
    requires |w| == 32 && Publishes32(p, s, m, h, w)
    ensures Halts(p, s, m + 166)
  {
    hide Halts, Exits, Run;
  }

  lemma ExitHalts(p: Platform, s: State, m: nat, h: Hart, w: seq<u64>)
    requires |w| == 32 && PublishesAfterEcall(p, s, m, h, w)
    ensures Halts(p, s, m + 1 + 167)
  {
    hide Halts, Exits, Run;
  }

  lemma RunHalts(p: Platform, s: State, sections: seq<ElfSection>, entry: u64, code: Code, h: Hart, n: nat, w: seq<u64>, total: nat)
    requires Ready(p, s, sections, entry, code) && Ends(sections, code, h, n, w, total)
    requires EntryAddress(sections) + 0x40 <= ROM_ADDR && h == StartHart(s, sections, entry)
    ensures Halts(p, s, total) && total > 0
  {
    hide Ready, Returns, AsksToExit, EntryAddress, StartHart, Halts, BootSteps, MicroCount, Publishes32, PublishesAfterEcall, RvRun;
    var m := BootSteps(sections) + MicroCount(code, h, n);
    if Returns(code, h, n, EntryAddress(sections) + 0x14, w) && total == StepsToReturn(sections, code, h, n) {
      ProgramPublishes(p, s, sections, entry, code, h, n, w);
      ReturnHalts(p, s, m, RvRun(code, h, n).hart, w);
    } else {
      ProgramExits(p, s, sections, entry, code, h, n, w);
      ExitHalts(p, s, m, RvRun(code, h, n).hart, w);
    }
  }

  /** A run of known length is recorded exactly when it stays below the step limit. */
  lemma RecordedExactly(p: Platform, s: State, total: nat, k: nat, maxSteps: nat)
    requires k > 0 && total > 0 && Halts(p, s, total)
    ensures (exists m: nat :: Completes(p, s, m, k, 1, 0, maxSteps)) <==> total < maxSteps
  {
    hide Halts, BelowLimit;
    Z.OneLimit(total, k, maxSteps);
    if total < maxSteps {
      assert Completes(p, s, total, k, 1, 0, maxSteps);
    }
    if m: nat :| Completes(p, s, m, k, 1, 0, maxSteps) {
      HaltsOnce(p, s, m, total);
    }
  }

  /** Chunk b, which starts at step from, is replayed in state r exactly when the memory of r has room
      for precompile results; then it shows its part of the run and ends where the next one starts. */
  ghost predicate ChunkReplayed(p: Platform, s: State, traces: seq<EmuTrace>, b: nat, from: nat, r: State)
    requires b < |traces|
  {
    var t := traces[b];
    var q := Replay(p, C.Loaded(r, t.startState), t.memReads, 0, t.steps);
    && Run(p, s, from).Some? && (q.Some? <==> AllFit(p, Run(p, s, from).value, t.steps, r.mem))
    && (q.Some? ==> C.ChunkShown(p, s, from, t, q.value))
    && (q.Some? && b + 1 < |traces| ==> StartOf(q.value.state) == traces[b + 1].startState)
  }

  lemma EveryChunk(p: Platform, s: State, total: nat, k: nat, traces: seq<EmuTrace>, b: nat, from: nat, r: State)
    requires C.WellBuilt(p.rom) && s.mode.GenerateMemReads? && k > 0 && Halts(p, s, total)
    requires OwnChunks(p, s, k, total, 1, 0, traces) && b < |traces| && from == b * k
    ensures ChunkReplayed(p, s, traces, b, from, r)
  {
    hide Halts, OwnChunks, Run, Replay, AllFit, C.ChunkShown, C.SumSteps, C.WellBuilt, C.Loaded, ChunkAt;
    var t := traces[b];
    C.ChunksContinue(p, s, k, total, traces, b, from);
    C.ChunkReplays(p, s, total, from, t.steps, t, r);
    if Replay(p, C.Loaded(r, t.startState), t.memReads, 0, t.steps).Some? {
      C.ReplayContinues(p, s, k, total, traces, b, from, r);
    }
  }

  /** The whole path. For a file, an input and a program that ends, returning or by a system call: the
      traces that any number of threads record are the chunks of one run, whose length is known in
      advance from the RISC-V run; recording succeeds exactly when this length is below the limit; and
      every chunk, from its start state and its own words, replays its part of the run. */
  lemma ProgramRecorded(p: Platform, sections: seq<ElfSection>, entry: u64, code: Code, input: seq<u8>, h: Hart, n: nat,
                        w: seq<u64>, total: nat, k: nat, maxSteps: nat)
    requires Launched(p, sections, entry, code, input) && Ends(sections, code, h, n, w, total) && k > 0
    requires EntryAddress(sections) + 0x40 <= ROM_ADDR && h == StartHart(FirstState(sections, input), sections, entry)
    ensures Halts(p, FirstState(sections, input), total)
    ensures (exists m: nat :: Completes(p, FirstState(sections, input), m, k, 1, 0, maxSteps)) <==> total < maxSteps
    ensures forall traces :: Z.OwnTraces(p, FirstState(sections, input), k, 1, 0, traces) ==>
              C.SumSteps(traces) == total && AllReplayed(p, FirstState(sections, input), traces, k)
  {
    hide RomFor, CodeOf, E.Loadable, RamAligned, FirstState, Ends, EntryAddress, StartHart, Halts, OwnChunks, C.SumSteps,
      AllReplayed, C.WellBuilt, Ready, Z.OwnTraces, Completes;
    var s := FirstState(sections, input);
    LaunchedReady(p, sections, entry, code, input);
    RunHalts(p, s, sections, entry, code, h, n, w, total);
    RecordedExactly(p, s, total, k, maxSteps);
    forall traces | Z.OwnTraces(p, s, k, 1, 0, traces)
      ensures C.SumSteps(traces) == total && AllReplayed(p, s, traces, k)
    {
      AllChunks(p, s, total, k, traces);
    }
  }

  ghost predicate AllReplayed(p: Platform, s: State, traces: seq<EmuTrace>, k: nat) {
    forall b, from: nat, r :: 0 <= b < |traces| && from == b * k ==> ChunkReplayed(p, s, traces, b, from, r)
  }

  lemma AllChunks(p: Platform, s: State, total: nat, k: nat, traces: seq<EmuTrace>)
    requires C.WellBuilt(p.rom) && s.mode.GenerateMemReads? && k > 0 && Halts(p, s, total) && total > 0
    requires Z.OwnTraces(p, s, k, 1, 0, traces)
    ensures C.SumSteps(traces) == total && AllReplayed(p, s, traces, k)
  {
    hide Halts, OwnChunks, ChunkReplayed, C.SumSteps, C.WellBuilt;
    assert OwnChunks(p, s, k, total, 1, 0, traces);
    C.StepsAddUp(p, s, k, total, traces, |traces|);
    assert traces[..|traces|] == traces;
    forall b, from: nat, r | 0 <= b < |traces| && from == b * k
      ensures ChunkReplayed(p, s, traces, b, from, r)
    {
      EveryChunk(p, s, total, k, traces, b, from, r);
    }
  }
}
