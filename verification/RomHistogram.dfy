/** The instruction histogram: a counter for every address of the rom, laid out in trace memory. */
module RomHistogram {
  import opened Words
  import opened Wrappers
  import opened MemoryModel
  import opened ZiskInst
  import opened Riscv
  import opened Transpiler
  import opened RomIndex
  import opened Bios

  const TRACE_ADDR: u64 := 0xC000_0000
  const TRACE_ADDR_NUMBER: u64 := 0xC000_0020
  const TRACE_SIZE_GRANULARITY := 1014 * 1014
  const MAX_COUNTERS := 100_000_000

  // ---- the layout ----

  /** Where the counter of the instruction at pc is. */
  function HistogramAddress(maxBiosPc: u64, pc: u64): int {
    if pc < ROM_ADDR then TRACE_ADDR_NUMBER + (1 + (pc - ROM_ENTRY) / 4) * 8
    else TRACE_ADDR_NUMBER + (1 + (maxBiosPc - ROM_ENTRY) / 4 + 1 + 1 + pc - ROM_ADDR) * 8
  }

  function BiosSize(maxBiosPc: u64): int {
    (maxBiosPc - ROM_ENTRY) / 4 + 1
  }

  function ProgramSize(maxProgramPc: u64): int {
    maxProgramPc - ROM_ADDR + 1
  }

  function HistogramSize(maxBiosPc: u64, maxProgramPc: u64): int {
    (4 + 1 + BiosSize(maxBiosPc) + 1 + ProgramSize(maxProgramPc)) * 8
  }

  /** What the sizes are computed from. */
  predicate Maxima(maxBiosPc: u64, maxProgramPc: u64) {
    ROM_ENTRY <= maxBiosPc < ROM_ADDR && maxBiosPc % 4 == 0 && ROM_ADDR <= maxProgramPc <= ROM_ADDR_MAX
  }

  /** A pc whose counter is asked for: aligned and not above the maximum in the BIOS. */
  predicate Counted(maxBiosPc: u64, pc: u64) {
    ROM_ENTRY <= pc && (pc < ROM_ADDR ==> pc % 4 == 0 && pc <= maxBiosPc)
  }

  /** The counter lies inside the histogram. */
  predicate CounterFits(maxBiosPc: u64, maxProgramPc: u64, pc: u64) {
    HistogramAddress(maxBiosPc, pc) + 8 <= TRACE_ADDR + HistogramSize(maxBiosPc, maxProgramPc)
  }

  /** Different instructions have different counters, and none of them is a size header. */
  lemma CountersDistinct(maxBiosPc: u64, pc: u64, pc': u64)
    requires ROM_ENTRY <= maxBiosPc < ROM_ADDR && Counted(maxBiosPc, pc) && Counted(maxBiosPc, pc')
    ensures HistogramAddress(maxBiosPc, pc) == HistogramAddress(maxBiosPc, pc') ==> pc == pc'
    ensures HistogramAddress(maxBiosPc, pc) != TRACE_ADDR_NUMBER
    ensures HistogramAddress(maxBiosPc, pc) != TRACE_ADDR_NUMBER + (1 + BiosSize(maxBiosPc)) * 8
  {
    if pc < ROM_ADDR { BiosCounter(maxBiosPc, pc); }
    if pc' < ROM_ADDR { BiosCounter(maxBiosPc, pc'); }
  }

  lemma BiosCounter(maxBiosPc: u64, pc: u64)
    requires ROM_ENTRY <= pc <= maxBiosPc < ROM_ADDR && pc % 4 == 0
    ensures 0 <= (pc - ROM_ENTRY) / 4 <= (maxBiosPc - ROM_ENTRY) / 4 && pc == ROM_ENTRY + (pc - ROM_ENTRY) / 4 * 4
  {
  }

  /** A counter lies in the histogram exactly when its pc is at most the maximum the sizes were
      computed from. */
  lemma CounterFitsExactly(maxBiosPc: u64, maxProgramPc: u64, pc: u64)
    requires Maxima(maxBiosPc, maxProgramPc) && Counted(maxBiosPc, pc)
    ensures TRACE_ADDR <= HistogramAddress(maxBiosPc, pc)
    ensures CounterFits(maxBiosPc, maxProgramPc, pc) <==> pc <= maxProgramPc
  {
    if pc < ROM_ADDR {
      BiosCounter(maxBiosPc, pc);
    }
  }

  // ---- the counters of a rom ----

  /** The instructions of a rom, with an aligned BIOS, and the maxima its indexes were built with. */
  ghost predicate RomKeys(keys: set<u64>, maxBiosPc: u64, maxProgramPc: u64) {
    (forall k :: k in keys ==> InRange(k)) && BiosAligned(keys) && LargestKeys(keys, maxBiosPc, maxProgramPc)
  }

  lemma RomCounted(keys: set<u64>, maxBiosPc: u64, maxProgramPc: u64, pc: u64)
    requires RomKeys(keys, maxBiosPc, maxProgramPc) && pc in keys
    ensures Maxima(maxBiosPc, maxProgramPc) && Counted(maxBiosPc, pc)
  {
  }

  /** In every rom, all instructions have counters of their own, apart from the size headers. */
  lemma RomCountersDistinct(keys: set<u64>, maxBiosPc: u64, maxProgramPc: u64, pc: u64, pc': u64)
    requires RomKeys(keys, maxBiosPc, maxProgramPc) && pc in keys && pc' in keys
    ensures HistogramAddress(maxBiosPc, pc) == HistogramAddress(maxBiosPc, pc') <==> pc == pc'
    ensures HistogramAddress(maxBiosPc, pc) != TRACE_ADDR_NUMBER
    ensures HistogramAddress(maxBiosPc, pc) != TRACE_ADDR_NUMBER + (1 + BiosSize(maxBiosPc)) * 8
  {
    hide RomKeys, Counted, HistogramAddress;
    RomCounted(keys, maxBiosPc, maxProgramPc, pc);
    RomCounted(keys, maxBiosPc, maxProgramPc, pc');
    CountersDistinct(maxBiosPc, pc, pc');
  }

  /** All counters of a rom lie inside the histogram exactly when no instruction is above the largest
      aligned address: the sizes look at aligned addresses only. */
  lemma RomFitsExactly(keys: set<u64>, maxBiosPc: u64, maxProgramPc: u64)
    requires RomKeys(keys, maxBiosPc, maxProgramPc)
    ensures (forall pc :: pc in keys ==> CounterFits(maxBiosPc, maxProgramPc, pc)) <==>
            (forall pc :: pc in keys ==> pc <= maxProgramPc)
  {
    hide RomKeys, CounterFits;
    forall pc | pc in keys
      ensures CounterFits(maxBiosPc, maxProgramPc, pc) <==> pc <= maxProgramPc
    {
      RomCounted(keys, maxBiosPc, maxProgramPc, pc);
      CounterFitsExactly(maxBiosPc, maxProgramPc, pc);
    }
  }

  /** A two-part jump as the last instruction of a program. */
  function LastJump(): RvInst {
    RvInst(Jalr, 0, 1, 0, 2)
  }

  ghost function JumpAtEnd(): Insts {
    map[ROM_ENTRY := JumpOverEnd(), ROM_EXIT := EndInst()] + MicroOps(LastJump(), ROM_ADDR).value
  }

  lemma JumpOps()
    ensures MicroOps(LastJump(), ROM_ADDR) ==
            Some(map[ROM_ADDR := JalrFirst(LastJump(), ROM_ADDR), ROM_ADDR + 1 := JalrSecond(LastJump(), ROM_ADDR + 1)])
  {
    hide JalrFirst, JalrSecond, JalrAligned;
  }

  lemma EndsBuilt()
    ensures Built(JumpOverEnd(), ROM_ENTRY) && Built(EndInst(), ROM_EXIT)
  {
  }

  lemma JumpAtEndKeys()
    ensures JumpAtEnd().Keys == {ROM_ENTRY, ROM_EXIT, ROM_ADDR, ROM_ADDR + 1}
  {
    hide MicroOps, JalrFirst, JalrSecond, JumpOverEnd, EndInst;
    JumpOps();
  }

  lemma JumpAtEndGenuine()
    ensures Genuine(JumpAtEnd())
  {
    EndsBuilt();
    MicroOpsBuilt(LastJump(), ROM_ADDR);
    hide MicroOps, JumpOverEnd, EndInst, Built;
  }

  /** For this rom the indexes can be built, and the counter of its last micro-instruction lies beyond
      the end of the histogram. */
  lemma JumpAtEndBeyond()
    ensures Genuine(JumpAtEnd()) && HasKeys(JumpAtEnd().Keys) && RomKeys(JumpAtEnd().Keys, ROM_EXIT, ROM_ADDR)
    ensures ROM_ADDR + 1 in JumpAtEnd().Keys && !CounterFits(ROM_EXIT, ROM_ADDR, ROM_ADDR + 1)
  {
    JumpAtEndKeys();
    JumpAtEndGenuine();
    hide JumpAtEnd, Genuine;
    assert IsBios(ROM_ENTRY) && IsProgram(ROM_ADDR);
  }

  // ---- counting and reading ----

  /** How often pc was executed. */
  function Multiplicity(pcs: seq<u64>, pc: u64): nat {
    if pcs == [] then 0
    else Multiplicity(pcs[..|pcs| - 1], pc) + (if pcs[|pcs| - 1] == pc then 1 else 0)
  }

  lemma {:induction false} MultiplicityBound(pcs: seq<u64>, pc: u64)
    ensures Multiplicity(pcs, pc) <= |pcs|
  {
    if pcs != [] {
      MultiplicityBound(pcs[..|pcs| - 1], pc);
    }
  }

  lemma MultiplicityNext(pcs: seq<u64>, x: u64, pc: u64)
    ensures Multiplicity(pcs + [x], pc) == Multiplicity(pcs, pc) + (if x == pc then 1 else 0)
  {
    assert (pcs + [x])[..|pcs|] == pcs;
  }

  /** The counter of pc, as an index in 8-byte words from the trace address. */
  function CounterIndex(maxBiosPc: u64, pc: u64): int {
    (HistogramAddress(maxBiosPc, pc) - TRACE_ADDR) / 8
  }

  lemma IndexIs(maxBiosPc: u64, pc: u64)
    ensures HistogramAddress(maxBiosPc, pc) == TRACE_ADDR + 8 * CounterIndex(maxBiosPc, pc)
    ensures CounterIndex(maxBiosPc, pc) ==
            if pc < ROM_ADDR then 5 + (pc - ROM_ENTRY) / 4 else 6 + BiosSize(maxBiosPc) + pc - ROM_ADDR
  {
  }

  lemma IndexesDistinct(maxBiosPc: u64, pc: u64, pc': u64)
    requires ROM_ENTRY <= maxBiosPc < ROM_ADDR && Counted(maxBiosPc, pc) && Counted(maxBiosPc, pc') && pc != pc'
    ensures CounterIndex(maxBiosPc, pc) != CounterIndex(maxBiosPc, pc')
    ensures CounterIndex(maxBiosPc, pc) != 4 && CounterIndex(maxBiosPc, pc) != 4 + BiosSize(maxBiosPc) + 1
  {
    CountersDistinct(maxBiosPc, pc, pc');
    IndexIs(maxBiosPc, pc);
    IndexIs(maxBiosPc, pc');
    hide HistogramAddress, CounterIndex;
  }

  /** The trace memory of a run that counts instructions, in 8-byte words. */
  class HistogramTrace {
    const trace: array<u64>
    const maxBiosPc: u64
    const maxProgramPc: u64

    /** Allocates a multiple of the granularity, which is more than the histogram needs. */
    constructor (maxBiosPc: u64, maxProgramPc: u64)
      requires Maxima(maxBiosPc, maxProgramPc)
      ensures this.maxBiosPc == maxBiosPc && this.maxProgramPc == maxProgramPc && fresh(trace)
      ensures Roomy() && Counts([])
    {
      var histogramSize := HistogramSize(maxBiosPc, maxProgramPc);
      var traceSize := (histogramSize / TRACE_SIZE_GRANULARITY + 1) * TRACE_SIZE_GRANULARITY;
      this.maxBiosPc, this.maxProgramPc := maxBiosPc, maxProgramPc;
      trace := new u64[traceSize / 8](_ => 0);
    }

    predicate Roomy() {
      Maxima(maxBiosPc, maxProgramPc) && HistogramSize(maxBiosPc, maxProgramPc) <= 8 * trace.Length
    }

    /** Every counter that is in the allocated memory shows how often its instruction was executed. */
    ghost predicate Counts(pcs: seq<u64>)
      reads trace
    {
      forall pc: u64 :: Counted(maxBiosPc, pc) && 0 <= CounterIndex(maxBiosPc, pc) < trace.Length ==>
        trace[CounterIndex(maxBiosPc, pc)] == Multiplicity(pcs, pc)
    }

    /** Executing one more instruction increments its counter. */
    method Count(pc: u64, ghost pcs: seq<u64>)
      requires Roomy() && Counts(pcs) && Counted(maxBiosPc, pc) && |pcs| + 1 < 0x1_0000_0000_0000_0000
      requires CounterIndex(maxBiosPc, pc) < trace.Length
      modifies trace
      ensures Counts(pcs + [pc])
    {
      IndexIs(maxBiosPc, pc);
      MultiplicityBound(pcs, pc);
      hide CounterIndex, Multiplicity;
      var index := CounterIndex(maxBiosPc, pc);
      forall other: u64 | Counted(maxBiosPc, other)
        ensures Multiplicity(pcs + [pc], other) == Multiplicity(pcs, other) + (if pc == other then 1 else 0)
        ensures other != pc ==> CounterIndex(maxBiosPc, other) != index
      {
        MultiplicityNext(pcs, pc, other);
        if other != pc {
          IndexesDistinct(maxBiosPc, pc, other);
        }
      }
      trace[index] := trace[index] + 1;
    }

    /** At the end of the run the sizes are written in front of the counters. */
    method WriteSizes(ghost pcs: seq<u64>)
      requires Roomy() && Counts(pcs)
      modifies trace
      ensures Counts(pcs) && trace[4] == BiosSize(maxBiosPc) && trace[4 + BiosSize(maxBiosPc) + 1] == ProgramSize(maxProgramPc)
    {
      hide CounterIndex, Multiplicity;
      var biosSize := BiosSize(maxBiosPc);
      forall pc: u64 | Counted(maxBiosPc, pc)
        ensures CounterIndex(maxBiosPc, pc) != 4 && CounterIndex(maxBiosPc, pc) != 4 + biosSize + 1
      {
        IndexesDistinct(maxBiosPc, pc, if pc == ROM_ADDR then ROM_ENTRY else ROM_ADDR);
      }
      trace[4] := biosSize;
      trace[4 + biosSize + 1] := ProgramSize(maxProgramPc);
    }

    /** Reads the two tables by the sizes in front of them, and gives up on sizes that are too high. */
    method LogHistogram(ghost pcs: seq<u64>) returns (r: Option<(seq<u64>, seq<u64>)>)
      requires Roomy() && Counts(pcs)
      requires trace[4] == BiosSize(maxBiosPc) && trace[4 + BiosSize(maxBiosPc) + 1] == ProgramSize(maxProgramPc)
      ensures r.Some? <==> BiosSize(maxBiosPc) <= MAX_COUNTERS && ProgramSize(maxProgramPc) <= MAX_COUNTERS
      ensures r.Some? ==> |r.value.0| == BiosSize(maxBiosPc) && |r.value.1| == ProgramSize(maxProgramPc)
      ensures r.Some? ==> forall i :: 0 <= i < |r.value.0| ==> r.value.0[i] == Multiplicity(pcs, BiosPc(i))
      ensures r.Some? ==> forall i :: 0 <= i < |r.value.1| ==> r.value.1[i] == Multiplicity(pcs, ProgramPc(i))
    {
      hide CounterIndex, Multiplicity;
      var biosSize := trace[4];
      if biosSize > MAX_COUNTERS {
        return None;
      }
      var bios := [];
      for i := 0 to biosSize
        invariant |bios| == i && forall j :: 0 <= j < i ==> bios[j] == Multiplicity(pcs, BiosPc(j))
      {
        BiosIndex(maxBiosPc, i);
        bios := bios + [trace[5 + i]];
      }
      var programSize := trace[4 + biosSize + 1];
      if programSize > MAX_COUNTERS {
        return None;
      }
      var program := [];
      for i := 0 to programSize
        invariant |program| == i && forall j :: 0 <= j < i ==> program[j] == Multiplicity(pcs, ProgramPc(j))
      {
        IndexIs(maxBiosPc, ProgramPc(i));
        program := program + [trace[4 + 1 + biosSize + 1 + i]];
      }
      r := Some((bios, program));
    }
  }

  function BiosPc(i: nat): int {
    ROM_ENTRY + 4 * i
  }

  function ProgramPc(i: nat): int {
    ROM_ADDR + i
  }

  lemma BiosIndex(maxBiosPc: u64, i: nat)
    requires ROM_ENTRY <= maxBiosPc < ROM_ADDR && maxBiosPc % 4 == 0 && i < BiosSize(maxBiosPc)
    ensures Counted(maxBiosPc, BiosPc(i)) && CounterIndex(maxBiosPc, BiosPc(i)) == 5 + i
  {
    IndexIs(maxBiosPc, BiosPc(i));
  }
}
