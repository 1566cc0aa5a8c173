/** Replaying a chunk while tracing the register accesses of every step. */
module FullTrace {
  import opened Words
  import opened Wrappers
  import opened MemoryModel
  import opened ZiskInst
  import M = Machine
  import opened RecordReplay
  import opened Traces
  import ChunkReplay
  import opened RegTrace
  import opened Emulator

  /** Slot k of an instruction uses a register. */
  predicate UsesSlot(i: Inst, k: nat) {
    if k == 0 then i.aSrc.SrcReg? else if k == 1 then i.bSrc.SrcReg? else k == 2 && i.store.StoreReg?
  }

  /** The register in slot k. */
  function RegAt(i: Inst, k: nat): nat
    requires UsesMainRegs(i) && UsesSlot(i, k)
  {
    if k == 0 then i.aOffsetImm0 else if k == 1 then i.bOffsetImm0 else i.storeOffset
  }

  /** The access of slot k alone, if there is one. */
  function SlotAccess(i: Inst, step: nat, k: nat): (r: seq<Access>)
    requires UsesMainRegs(i) && k < 3
    ensures |r| <= 1
    ensures r != [] ==> r[0].Ok() && r[0].step == step && r[0].slot == k && UsesSlot(i, k) && r[0].reg == RegAt(i, k)
  {
    if UsesSlot(i, k) then [Access(RegAt(i, k), step, k)] else []
  }

  /** The accesses in the slots before k. */
  function Earlier(i: Inst, step: nat, k: nat): seq<Access>
    requires UsesMainRegs(i) && k <= 3
  {
    if k == 0 then [] else Earlier(i, step, k - 1) + SlotAccess(i, step, k - 1)
  }

  /** The main registers an instruction uses, in slot order. */
  function RegAccesses(i: Inst, step: nat): seq<Access>
    requires UsesMainRegs(i)
  {
    Earlier(i, step, 3)
  }

  /** Slot k of the row shows the access to the same register that precedes it, and how far away it
      is; a first use and an unused slot have no distance. */
  ghost predicate RecordsSlot(row: RegRow, i: Inst, k: nat, step: nat, history: seq<Access>, init: nat, initIsUse: bool)
    requires UsesMainRegs(i) && k < 3
  {
    |row.prevSteps| == |row.ranges| == 3 &&
    if UsesSlot(i, k) then
      var before := history + Earlier(i, step, k);
      && row.prevSteps[k] == LastStep(before, init, RegAt(i, k))
      && row.ranges[k] == RangeOf(before, Access(RegAt(i, k), step, k), init, initIsUse) % 0x1_0000_0000
    else row.ranges[k] == 0
  }

  ghost predicate Records(row: RegRow, i: Inst, step: nat, history: seq<Access>, init: nat, initIsUse: bool)
    requires UsesMainRegs(i)
  {
    forall k :: 0 <= k < 3 ==> RecordsSlot(row, i, k, step, history, init, initIsUse)
  }

  /** A history that stops before step. */
  ghost predicate Until(history: seq<Access>, init: nat, step: nat) {
    && InOrder(history) && StartsBefore(history, init) && init < 1 + 4 * step
    && forall j :: 0 <= j < |history| ==> history[j].step < step
  }

  /** More accesses of the same step may follow in higher slots. */
  ghost predicate Upto(history: seq<Access>, init: nat, step: nat, slot: nat) {
    && InOrder(history) && StartsBefore(history, init) && init < 1 + 4 * step
    && forall j :: 0 <= j < |history| ==> history[j].step < step || (history[j].step == step && history[j].slot < slot)
  }

  lemma UptoNext(history: seq<Access>, init: nat, step: nat, slot: nat, x: Access)
    requires Upto(history, init, step, slot) && x.Ok() && x.step == step && x.slot == slot
    ensures InOrder(history + [x]) && StartsBefore(history + [x], init) && Upto(history + [x], init, step, slot + 1)
  {
  }

  /** The accesses of a step, slot by slot, keep the history in order. */
  lemma {:induction false} EarlierInOrder(history: seq<Access>, init: nat, step: nat, i: Inst, k: nat)
    requires Until(history, init, step) && UsesMainRegs(i) && k <= 3
    ensures Upto(history + Earlier(i, step, k), init, step, k)
  {
    if k == 0 {
      assert history + [] == history;
    } else {
      EarlierInOrder(history, init, step, i, k - 1);
      hide Until, Upto, SlotAccess;
      SlotInOrder(history + Earlier(i, step, k - 1), init, step, k - 1, SlotAccess(i, step, k - 1));
      EarlierNext(history, i, step, k - 1);
    }
  }

  lemma EarlierNext(history: seq<Access>, i: Inst, step: nat, k: nat)
    requires UsesMainRegs(i) && k < 3
    ensures history + Earlier(i, step, k + 1) == history + Earlier(i, step, k) + SlotAccess(i, step, k)
  {
  }

  /** What holds between the slots of a step. */
  lemma StepSlots(history: seq<Access>, init: nat, step: nat, i: Inst)
    requires Until(history, init, step) && UsesMainRegs(i)
    ensures history + Earlier(i, step, 0) == history
    ensures forall k :: 0 <= k < 3 ==> Upto(history + Earlier(i, step, k), init, step, k)
    ensures forall k :: 0 <= k < 3 ==>
              history + Earlier(i, step, k + 1) == history + Earlier(i, step, k) + SlotAccess(i, step, k)
  {
    forall k | 0 <= k < 3
      ensures Upto(history + Earlier(i, step, k), init, step, k)
      ensures history + Earlier(i, step, k + 1) == history + Earlier(i, step, k) + SlotAccess(i, step, k)
    {
      EarlierInOrder(history, init, step, i, k);
      EarlierNext(history, i, step, k);
    }
  }

  lemma StepInOrder(history: seq<Access>, init: nat, step: nat, i: Inst)
    requires Until(history, init, step) && UsesMainRegs(i)
    ensures Until(history + RegAccesses(i, step), init, step + 1)
  {
    EarlierInOrder(history, init, step, i, 3);
  }

  lemma SlotInOrder(history: seq<Access>, init: nat, step: nat, slot: nat, x: seq<Access>)
    requires Upto(history, init, step, slot) && |x| <= 1 && slot < 3
    requires x != [] ==> x[0].Ok() && x[0].step == step && x[0].slot == slot
    ensures Upto(history + x, init, step, slot + 1)
  {
    if x == [] {
      assert history + x == history;
    } else {
      UptoNext(history, init, step, slot, x[0]);
      assert x == [x[0]];
    }
  }

  /** The tracer and the emulator share no memory. */
  predicate Separate(emu: Emu, regTrace: EmuRegTrace) {
    regTrace.regSteps != emu.regs
  }

  /** The access of one slot, when the instruction makes it. */
  method TraceSlot(regTrace: EmuRegTrace, i: Inst, k: nat, step: nat,
                   ghost history: seq<Access>, ghost init: nat, ghost initIsUse: bool)
    requires regTrace.Valid() && UsesMainRegs(i) && k < 3
    requires regTrace.Tracks(history, init, initIsUse) && Upto(history, init, step, k)
    requires 1 + 4 * step + 3 < 0x1_0000_0000_0000_0000 && regTrace.regStepRanges[k] == 0
    modifies regTrace`regPrevSteps, regTrace`regStepRanges, regTrace.regSteps, regTrace.firstStepUses
    ensures regTrace.Valid() && regTrace.Tracks(history + SlotAccess(i, step, k), init, initIsUse)
    ensures UsesSlot(i, k) ==> regTrace.regPrevSteps[k] == LastStep(history, init, RegAt(i, k))
    ensures regTrace.regStepRanges[k] ==
            if UsesSlot(i, k) then RangeOf(history, Access(RegAt(i, k), step, k), init, initIsUse) % 0x1_0000_0000 else 0
    ensures forall j :: 0 <= j < 3 && (j != k || !UsesSlot(i, k)) ==> regTrace.regPrevSteps[j] == old(regTrace.regPrevSteps[j])
    ensures forall j :: 0 <= j < 3 && j != k ==> regTrace.regStepRanges[j] == old(regTrace.regStepRanges[j])
  {
    hide InOrder, StartsBefore, LastStep, FirstUse;
    if UsesSlot(i, k) {
      UptoNext(history, init, step, k, Access(RegAt(i, k), step, k));
      regTrace.TraceRegAccess(RegAt(i, k), step, k, history, init, initIsUse);
    } else {
      assert history + [] == history;
    }
  }

  /** The register accesses of an instruction, in slot order, before it changes any register. */
  method TraceInstruction(emu: Emu, regTrace: EmuRegTrace, i: Inst,
                          ghost history: seq<Access>, ghost init: nat, ghost initIsUse: bool)
    requires emu.Valid() && regTrace.Valid() && Separate(emu, regTrace) && UsesMainRegs(i)
    requires regTrace.Tracks(history, init, initIsUse) && Until(history, init, emu.step)
    requires 1 + 4 * emu.step + 3 < 0x1_0000_0000_0000_0000 && regTrace.regStepRanges == [0, 0, 0]
    modifies regTrace, regTrace.regSteps, regTrace.firstStepUses
    ensures regTrace.Valid() && regTrace.Tracks(history + RegAccesses(i, emu.step), init, initIsUse)
    ensures Records(regTrace.Row(), i, emu.step, history, init, initIsUse)
    ensures forall k :: 0 <= k < 3 && !UsesSlot(i, k) ==> regTrace.regPrevSteps[k] == old(regTrace.regPrevSteps[k])
    ensures regTrace.storeRegPrevValue == if i.store.StoreReg? then emu.regs[i.storeOffset] else old(regTrace.storeRegPrevValue)
  {
    hide Upto, Until, LastStep, RangeOf, UsesSlot, RegAt, SlotAccess, Earlier;
    var step := emu.step;
    StepSlots(history, init, step, i);
    TraceSlot(regTrace, i, 0, step, history + Earlier(i, step, 0), init, initIsUse);
    TraceSlot(regTrace, i, 1, step, history + Earlier(i, step, 1), init, initIsUse);
    TraceSlot(regTrace, i, 2, step, history + Earlier(i, step, 2), init, initIsUse);
    if i.store.StoreReg? {
      regTrace.storeRegPrevValue := emu.regs[i.storeOffset];
    }
  }

  /** Replays one step as StepEmuTrace does, and traces the registers it uses: the row it returns shows
      for each of them the access to the same register before it and the distance to it, and the value
      that the result register had. */
  method StepSliceFullTrace(emu: Emu, regTrace: EmuRegTrace, memReads: seq<u64>, index: nat,
                            ghost history: seq<Access>, ghost init: nat, ghost initIsUse: bool)
    returns (r: Option<nat>, row: RegRow)
    requires emu.Valid() && index <= |memReads| && regTrace.Valid() && Separate(emu, regTrace)
    requires regTrace.Tracks(history, init, initIsUse) && Until(history, init, emu.step)
    requires 1 + 4 * emu.step + 3 < 0x1_0000_0000_0000_0000
    requires ChunkReplay.MainRegsAt(emu.p.rom, emu.pc)
    modifies emu, emu.mem, emu.regs, regTrace, regTrace.regSteps, regTrace.firstStepUses
    ensures emu.Valid() && regTrace.Valid()
    ensures r.Some? ==> r.value <= |memReads|
    ensures M.StepConsume(emu.p, old(emu.S()).(mode := M.ConsumeMemReads), memReads, index) ==
            if r.Some? then Some((emu.S(), r.value)) else None
    ensures r.Some? ==> M.GetInstruction(emu.p.rom, old(emu.pc)).Some?
    ensures r.Some? ==>
              var i := M.GetInstruction(emu.p.rom, old(emu.pc)).value;
              && Until(history + RegAccesses(i, old(emu.step)), init, old(emu.step) + 1)
              && regTrace.Tracks(history + RegAccesses(i, old(emu.step)), init, initIsUse)
              && Records(row, i, old(emu.step), history, init, initIsUse)
              && row.storePrevValue == (if i.store.StoreReg? then old(emu.S()).regs[i.storeOffset] else old(regTrace.storeRegPrevValue))
    ensures r.Some? ==> row == regTrace.Row() && emu.step == old(emu.step) + 1
  {
    hide M.StepConsume, M.GetInstruction, Until, Upto, InOrder, StartsBefore, Records, RegAccesses;
    regTrace.ClearRegStepRanges();
    emu.mode := M.ConsumeMemReads;
    var instruction := M.GetInstruction(emu.p.rom, emu.pc);
    if instruction.Some? {
      var i, step := instruction.value, emu.step;
      StepInOrder(history, init, step, i);
      TraceInstruction(emu, regTrace, i, history, init, initIsUse);
    }
    row := regTrace.Row();
    r := emu.StepEmuTrace(memReads, index);
  }

  // ---- a whole chunk ----

  /** The register accesses of n replayed steps. */
  ghost function AccessesOf(p: M.Platform, s: M.State, log: seq<u64>, n: nat): seq<Access> {
    if n == 0 then []
    else
      var r := Replay(p, s, log, 0, n - 1);
      AccessesOf(p, s, log, n - 1) + (if r.Some? then AccessesAt(p, r.value.state) else [])
  }

  ghost function AccessesAt(p: M.Platform, s: M.State): seq<Access> {
    var i := M.GetInstruction(p.rom, s.pc);
    if i.Some? && UsesMainRegs(i.value) then RegAccesses(i.value, s.step) else []
  }

  /** Row n of a chunk records the register accesses of replayed step n after those of all steps before. */
  ghost predicate RowAt(p: M.Platform, s: M.State, log: seq<u64>, n: nat, row: RegRow, init: nat, initIsUse: bool) {
    var r := Replay(p, s, log, 0, n);
    && r.Some? && M.GetInstruction(p.rom, r.value.state.pc).Some?
    && var t, i := r.value.state, M.GetInstruction(p.rom, r.value.state.pc).value;
       && UsesMainRegs(i) && Records(row, i, t.step, AccessesOf(p, s, log, n), init, initIsUse)
       && (i.store.StoreReg? ==> row.storePrevValue == t.regs[i.storeOffset])
  }

  ghost predicate RowsOf(p: M.Platform, s: M.State, log: seq<u64>, rows: seq<RegRow>, init: nat, initIsUse: bool) {
    forall k :: 0 <= k < |rows| ==> RowAt(p, s, log, k, rows[k], init, initIsUse)
  }

  lemma NothingYet(init: nat, step: nat)
    requires init < 1 + 4 * step
    ensures Until([], init, step)
  {
  }

  /** Replays a chunk as ProcessEmuTrace does, and returns one row for each step. The rows record the
      register accesses of the whole chunk, whose steps are strictly increasing, and the tracer is left
      with the last and the first access to each register. */
  method FillPartialTrace(emu: Emu, regTrace: EmuRegTrace, minTrace: EmuTrace, ghost init: nat, ghost initIsUse: bool)
    returns (r: Option<nat>, rows: seq<RegRow>)
    requires emu.Valid() && regTrace.Valid() && Separate(emu, regTrace) && ChunkReplay.WellBuilt(emu.p.rom)
    requires regTrace.Tracks([], init, initIsUse) && init < 1 + 4 * minTrace.startState.step
    requires 1 + 4 * (minTrace.startState.step + minTrace.steps) + 3 < 0x1_0000_0000_0000_0000
    modifies emu, emu.mem, emu.regs, regTrace, regTrace.regSteps, regTrace.firstStepUses
    ensures emu.Valid() && regTrace.Valid()
    ensures var start := ChunkReplay.Loaded(old(emu.S()), minTrace.startState);
            && ChunkReplay.Consumed(Replay(emu.p, start, minTrace.memReads, 0, minTrace.steps)) ==
               (if r.Some? then Some((emu.S(), r.value)) else None)
            && (r.Some? ==>
                  && |rows| == minTrace.steps && RowsOf(emu.p, start, minTrace.memReads, rows, init, initIsUse)
                  && regTrace.Tracks(AccessesOf(emu.p, start, minTrace.memReads, minTrace.steps), init, initIsUse)
                  && Until(AccessesOf(emu.p, start, minTrace.memReads, minTrace.steps), init,
                           minTrace.startState.step + minTrace.steps))
  {
    hide M.StepConsume, M.GetInstruction, Until, InOrder, RawMemory.Valid, UsesMainRegs, ChunkReplay.WellBuilt, AccessesOf,
      RegAccesses, LastStep, FirstUse, RowAt, Records;
    ghost var start := ChunkReplay.Loaded(emu.S(), minTrace.startState);
    ghost var log := minTrace.memReads;
    emu.SetStartState(minTrace.startState);
    NothingYet(init, emu.step);
    NoAccesses(emu.p, start, log);
    var memReadsIndex := 0;
    rows := [];
    for k := 0 to minTrace.steps
      invariant emu.Valid() && regTrace.Valid() && memReadsIndex <= |log| && emu.step == minTrace.startState.step + k
      invariant emu.mode.ConsumeMemReads? && |rows| == k
      invariant ChunkReplay.Consumed(Replay(emu.p, start, log, 0, k)) == Some((emu.S(), memReadsIndex))
      invariant regTrace.Tracks(AccessesOf(emu.p, start, log, k), init, initIsUse)
      invariant Until(AccessesOf(emu.p, start, log, k), init, emu.step)
      invariant RowsOf(emu.p, start, log, rows, init, initIsUse)
    {
      ghost var before := emu.S();
      MainRegsHere(emu.p.rom, emu.pc);
      assert before.(mode := M.ConsumeMemReads) == before;
      var next, row := StepSliceFullTrace(emu, regTrace, minTrace.memReads, memReadsIndex, AccessesOf(emu.p, start, log, k), init, initIsUse);
      if next.None? {
        ChunkReplay.ReplayStops(emu.p, start, log, 0, k + 1, minTrace.steps);
        return None, rows;
      }
      StepKeepsReplaying(emu.p, before, log, memReadsIndex);
      AccessesNext(emu.p, start, log, k, before, memReadsIndex, M.GetInstruction(emu.p.rom, before.pc).value);
      RowRecorded(emu.p, start, log, k, before, memReadsIndex, M.GetInstruction(emu.p.rom, before.pc).value, row, init, initIsUse);
      memReadsIndex := next.value;
      rows := rows + [row];
    }
    return Some(memReadsIndex), rows;
  }

  lemma RowRecorded(p: M.Platform, s: M.State, log: seq<u64>, n: nat, t: M.State, index: nat, i: Inst, row: RegRow, init: nat, initIsUse: bool)
    requires ChunkReplay.Consumed(Replay(p, s, log, 0, n)) == Some((t, index))
    requires M.GetInstruction(p.rom, t.pc) == Some(i) && UsesMainRegs(i)
    requires Records(row, i, t.step, AccessesOf(p, s, log, n), init, initIsUse)
    requires i.store.StoreReg? ==> row.storePrevValue == t.regs[i.storeOffset]
    ensures RowAt(p, s, log, n, row, init, initIsUse)
  {
    hide M.GetInstruction, Records, UsesMainRegs, Replay, AccessesOf;
  }

  lemma NoAccesses(p: M.Platform, s: M.State, log: seq<u64>)
    ensures AccessesOf(p, s, log, 0) == []
  {
  }

  lemma MainRegsHere(rom: M.Rom, pc: u64)
    requires ChunkReplay.WellBuilt(rom)
    ensures ChunkReplay.MainRegsAt(rom, pc)
  {
    hide M.GetInstruction, ChunkReplay.FillerAt, ChunkReplay.LastAt;
  }

  lemma AccessesNext(p: M.Platform, s: M.State, log: seq<u64>, n: nat, t: M.State, index: nat, i: Inst)
    requires ChunkReplay.Consumed(Replay(p, s, log, 0, n)) == Some((t, index))
    requires M.GetInstruction(p.rom, t.pc) == Some(i) && UsesMainRegs(i)
    ensures AccessesOf(p, s, log, n + 1) == AccessesOf(p, s, log, n) + RegAccesses(i, t.step)
  {
    hide M.GetInstruction, RegAccesses, UsesMainRegs, Replay;
  }

  // ---- the distances of a chunk ----

  /** From its first use on, the register is used for less than 2^32 memory steps. */
  ghost predicate Short(history: seq<Access>, init: nat, initIsUse: bool, reg: nat) {
    FirstUse(history, init, initIsUse, reg).Some? ==>
      LastStep(history, init, reg) < FirstUse(history, init, initIsUse, reg).value + 0x1_0000_0000
  }

  ghost predicate Proper(history: seq<Access>, init: nat, initIsUse: bool, reg: nat) {
    InOrder(history) && StartsBefore(history, init) && Short(history, init, initIsUse, reg)
  }

  lemma ProperBefore(history: seq<Access>, x: Access, init: nat, initIsUse: bool, reg: nat)
    requires Proper(history + [x], init, initIsUse, reg)
    ensures Proper(history, init, initIsUse, reg)
  {
    assert (history + [x])[..|history|] == history;
    OrderPrefix(history + [x], |history|, init);
    FirstUseAppend(history, x, init, initIsUse, reg);
    LastStepAppend(history, x, init, reg);
    RangePositive(history, x, init, initIsUse);
  }

  /** The distance of an access is recorded as it is; only a first use has none. */
  lemma ExactRange(history: seq<Access>, x: Access, init: nat, initIsUse: bool)
    requires Proper(history + [x], init, initIsUse, x.reg)
    ensures RangeOf(history, x, init, initIsUse) < 0x1_0000_0000
    ensures FirstUse(history, init, initIsUse, x.reg).None? ==> RangeOf(history, x, init, initIsUse) == 0
    ensures FirstUse(history, init, initIsUse, x.reg).Some? ==>
              1 <= RangeOf(history, x, init, initIsUse) == x.MemStep() - LastStep(history, init, x.reg)
  {
    if FirstUse(history, init, initIsUse, x.reg).Some? {
      FirstUseAppend(history, x, init, initIsUse, x.reg);
      LastStepAppend(history, x, init, x.reg);
      RangeFits(history, x, init, initIsUse);
      RangePositive(history, x, init, initIsUse);
    }
  }

  /** What slot k of a row adds to the distances of a register. */
  function SlotRange(row: RegRow, i: Inst, k: nat, reg: nat): nat
    requires UsesMainRegs(i) && k < 3 && |row.ranges| == 3
  {
    if UsesSlot(i, k) && RegAt(i, k) == reg then row.ranges[k] else 0
  }

  function RowRange(row: RegRow, i: Inst, reg: nat): nat {
    if UsesMainRegs(i) && |row.ranges| == 3 then SlotRange(row, i, 0, reg) + SlotRange(row, i, 1, reg) + SlotRange(row, i, 2, reg)
    else 0
  }

  /** The sum of the distances to a register in the first n rows. */
  ghost function RowsRange(p: M.Platform, s: M.State, log: seq<u64>, rows: seq<RegRow>, n: nat, reg: nat): nat
    requires n <= |rows|
  {
    if n == 0 then 0
    else
      var r := Replay(p, s, log, 0, n - 1);
      RowsRange(p, s, log, rows, n - 1, reg) +
      (if r.Some? && M.GetInstruction(p.rom, r.value.state.pc).Some? then
         RowRange(rows[n - 1], M.GetInstruction(p.rom, r.value.state.pc).value, reg)
       else 0)
  }

  lemma SumRangesAppend(history: seq<Access>, x: Access, init: nat, initIsUse: bool, reg: nat)
    ensures SumRanges(history + [x], init, initIsUse, reg) ==
            SumRanges(history, init, initIsUse, reg) + (if x.reg == reg then RangeOf(history, x, init, initIsUse) else 0)
  {
    assert (history + [x])[..|history|] == history;
  }

  lemma SlotSum(row: RegRow, i: Inst, k: nat, step: nat, history: seq<Access>, init: nat, initIsUse: bool, reg: nat)
    requires UsesMainRegs(i) && k < 3 && RecordsSlot(row, i, k, step, history, init, initIsUse)
    requires Proper(history + Earlier(i, step, k + 1), init, initIsUse, reg)
    ensures Proper(history + Earlier(i, step, k), init, initIsUse, reg)
    ensures SumRanges(history + Earlier(i, step, k + 1), init, initIsUse, reg) ==
            SumRanges(history + Earlier(i, step, k), init, initIsUse, reg) + SlotRange(row, i, k, reg)
  {
    hide Earlier, Proper, SumRanges, RangeOf, LastStep;
    var before := history + Earlier(i, step, k);
    EarlierNext(history, i, step, k);
    if UsesSlot(i, k) {
      var x := Access(RegAt(i, k), step, k);
      ProperBefore(before, x, init, initIsUse, reg);
      SumRangesAppend(before, x, init, initIsUse, reg);
      if x.reg == reg {
        ExactRange(before, x, init, initIsUse);
      }
    } else {
      assert before + [] == before;
    }
  }

  lemma RowSum(row: RegRow, i: Inst, step: nat, history: seq<Access>, init: nat, initIsUse: bool, reg: nat)
    requires UsesMainRegs(i) && Records(row, i, step, history, init, initIsUse)
    requires Proper(history + RegAccesses(i, step), init, initIsUse, reg)
    ensures Proper(history, init, initIsUse, reg)
    ensures SumRanges(history + RegAccesses(i, step), init, initIsUse, reg) ==
            SumRanges(history, init, initIsUse, reg) + RowRange(row, i, reg)
  {
    assert history + Earlier(i, step, 0) == history;
    assert RecordsSlot(row, i, 0, step, history, init, initIsUse);
    hide Earlier, Proper, SumRanges, SlotRange, UsesMainRegs;
    SlotSum(row, i, 2, step, history, init, initIsUse, reg);
    SlotSum(row, i, 1, step, history, init, initIsUse, reg);
    SlotSum(row, i, 0, step, history, init, initIsUse, reg);
  }

  /** The distances in the rows are those of the history. */
  lemma {:induction false} RowsSum(p: M.Platform, s: M.State, log: seq<u64>, rows: seq<RegRow>, n: nat, init: nat, initIsUse: bool, reg: nat)
    requires n <= |rows| && RowsOf(p, s, log, rows, init, initIsUse)
    requires Proper(AccessesOf(p, s, log, n), init, initIsUse, reg)
    ensures RowsRange(p, s, log, rows, n, reg) == SumRanges(AccessesOf(p, s, log, n), init, initIsUse, reg)
  {
    hide Proper, RegAccesses, RowRange, UsesMainRegs, Records, M.GetInstruction, Replay;
    if n > 0 {
      assert RowAt(p, s, log, n - 1, rows[n - 1], init, initIsUse);
      var t := Replay(p, s, log, 0, n - 1).value.state;
      var i := M.GetInstruction(p.rom, t.pc).value;
      RowSum(rows[n - 1], i, t.step, AccessesOf(p, s, log, n - 1), init, initIsUse, reg);
      RowsSum(p, s, log, rows, n - 1, init, initIsUse, reg);
    }
  }

  /** The chain of a chunk. In the rows of a replayed chunk, the recorded distances of a register add up
      to the distance from its first use to its last. */
  lemma ChunkTelescopes(p: M.Platform, s: M.State, log: seq<u64>, rows: seq<RegRow>, init: nat, initIsUse: bool, reg: nat, end: nat)
    requires RowsOf(p, s, log, rows, init, initIsUse) && Until(AccessesOf(p, s, log, |rows|), init, end)
    requires Short(AccessesOf(p, s, log, |rows|), init, initIsUse, reg)
    ensures var history := AccessesOf(p, s, log, |rows|);
            var first, sum := FirstUse(history, init, initIsUse, reg), RowsRange(p, s, log, rows, |rows|, reg);
            if first.None? then sum == 0 else first.value + sum == LastStep(history, init, reg)
  {
    hide RowsOf, RowsRange, InOrder, StartsBefore, AccessesOf;
    RowsSum(p, s, log, rows, |rows|, init, initIsUse, reg);
    RangesTelescope(AccessesOf(p, s, log, |rows|), init, initIsUse, reg);
  }

  /** A used slot names the access to the same register that precedes it, or the start of the trace if
      there is none, and the distance to it, which is at least 1 but for a first use. */
  ghost predicate Linked(row: RegRow, i: Inst, k: nat, step: nat, history: seq<Access>, init: nat, initIsUse: bool)
    requires UsesMainRegs(i) && k < 3
  {
    |row.prevSteps| == |row.ranges| == 3 &&
    (UsesSlot(i, k) ==>
      var before, reg := history + Earlier(i, step, k), RegAt(i, k);
      && row.prevSteps[k] < MainStepToMemStep(step, k)
      && ((exists j :: Precedes(before, j, |before|, reg) && row.prevSteps[k] == before[j].MemStep()) ||
          ((forall j :: 0 <= j < |before| ==> before[j].reg != reg) && row.prevSteps[k] == init))
      && (if FirstUse(before, init, initIsUse, reg).Some? then 1 <= row.ranges[k] == MainStepToMemStep(step, k) - row.prevSteps[k]
          else row.ranges[k] == 0))
  }

  lemma SlotLinked(row: RegRow, i: Inst, k: nat, step: nat, history: seq<Access>, init: nat, initIsUse: bool)
    requires UsesMainRegs(i) && k < 3 && RecordsSlot(row, i, k, step, history, init, initIsUse)
    requires UsesSlot(i, k) ==> Proper(history + Earlier(i, step, k + 1), init, initIsUse, RegAt(i, k))
    ensures Linked(row, i, k, step, history, init, initIsUse)
  {
    hide Earlier, LastStep, FirstUse, RangeOf, Proper, UsesMainRegs;
    if UsesSlot(i, k) {
      EarlierNext(history, i, step, k);
      var before, x := history + Earlier(i, step, k), Access(RegAt(i, k), step, k);
      ExactRange(before, x, init, initIsUse);
      LastStepPrecedes(before, init, x.reg);
      ProperOrder(before + [x], init, initIsUse, x.reg);
      RangePositive(before, x, init, initIsUse);
    }
  }

  lemma ProperOrder(history: seq<Access>, init: nat, initIsUse: bool, reg: nat)
    requires Proper(history, init, initIsUse, reg)
    ensures InOrder(history) && StartsBefore(history, init)
  {
  }

  lemma {:induction false} ProperPrefix(history: seq<Access>, more: seq<Access>, init: nat, initIsUse: bool, reg: nat)
    requires Proper(history + more, init, initIsUse, reg)
    ensures Proper(history, init, initIsUse, reg)
    decreases |more|
  {
    hide Proper;
    if more == [] {
      assert history + more == history;
    } else {
      var n := |more| - 1;
      assert history + more == history + more[..n] + [more[n]];
      ProperBefore(history + more[..n], more[n], init, initIsUse, reg);
      ProperPrefix(history, more[..n], init, initIsUse, reg);
    }
  }

  lemma {:induction false} ProperEarlier(p: M.Platform, s: M.State, log: seq<u64>, m: nat, n: nat, init: nat, initIsUse: bool, reg: nat)
    requires m <= n && Proper(AccessesOf(p, s, log, n), init, initIsUse, reg)
    ensures Proper(AccessesOf(p, s, log, m), init, initIsUse, reg)
    decreases n
  {
    hide Proper, AccessesAt, Replay;
    if m < n {
      var r := Replay(p, s, log, 0, n - 1);
      ProperPrefix(AccessesOf(p, s, log, n - 1), if r.Some? then AccessesAt(p, r.value.state) else [], init, initIsUse, reg);
      ProperEarlier(p, s, log, m, n - 1, init, initIsUse, reg);
    }
  }

  /** Every slot of row n is linked to the accesses before it. */
  ghost predicate RowLinked(p: M.Platform, s: M.State, log: seq<u64>, n: nat, row: RegRow, init: nat, initIsUse: bool) {
    RowAt(p, s, log, n, row, init, initIsUse) &&
    var t := Replay(p, s, log, 0, n).value.state;
    var i := M.GetInstruction(p.rom, t.pc).value;
    forall k :: 0 <= k < 3 ==>
      RecordsSlot(row, i, k, t.step, AccessesOf(p, s, log, n), init, initIsUse) &&
      Linked(row, i, k, t.step, AccessesOf(p, s, log, n), init, initIsUse)
  }

  /** In the rows of a replayed chunk, every access is linked to the access to its register before it. */
  lemma RowChains(p: M.Platform, s: M.State, log: seq<u64>, rows: seq<RegRow>, n: nat, init: nat, initIsUse: bool, end: nat)
    requires n < |rows| && RowsOf(p, s, log, rows, init, initIsUse)
    requires Until(AccessesOf(p, s, log, |rows|), init, end)
    requires forall reg :: Short(AccessesOf(p, s, log, |rows|), init, initIsUse, reg)
    ensures RowLinked(p, s, log, n, rows[n], init, initIsUse)
  {
    hide Short, M.GetInstruction, Replay, RegAccesses, UsesMainRegs, Linked, RecordsSlot, InOrder, StartsBefore, Earlier, AccessesOf;
    assert RowAt(p, s, log, n, rows[n], init, initIsUse);
    var r := Replay(p, s, log, 0, n).value;
    var t := r.state;
    var i := M.GetInstruction(p.rom, t.pc).value;
    AccessesNext(p, s, log, n, t, r.index, i);
    forall k | 0 <= k < 3
      ensures RecordsSlot(rows[n], i, k, t.step, AccessesOf(p, s, log, n), init, initIsUse)
      ensures Linked(rows[n], i, k, t.step, AccessesOf(p, s, log, n), init, initIsUse)
    {
      if UsesSlot(i, k) {
        ProperEarlier(p, s, log, n + 1, |rows|, init, initIsUse, RegAt(i, k));
        ProperSlot(AccessesOf(p, s, log, n), i, t.step, k, init, initIsUse, RegAt(i, k));
      }
      SlotLinked(rows[n], i, k, t.step, AccessesOf(p, s, log, n), init, initIsUse);
    }
  }

  lemma {:induction false} ProperSlot(history: seq<Access>, i: Inst, step: nat, k: nat, init: nat, initIsUse: bool, reg: nat)
    requires UsesMainRegs(i) && k < 3 && Proper(history + RegAccesses(i, step), init, initIsUse, reg)
    ensures Proper(history + Earlier(i, step, k + 1), init, initIsUse, reg)
    decreases 3 - k
  {
    hide Proper, Earlier;
    if k < 2 {
      ProperSlot(history, i, step, k + 1, init, initIsUse, reg);
      EarlierNext(history, i, step, k + 1);
      ProperPrefix(history + Earlier(i, step, k + 1), SlotAccess(i, step, k + 1), init, initIsUse, reg);
    }
  }

  lemma StepKeepsReplaying(p: M.Platform, s: M.State, log: seq<u64>, k: nat)
    requires M.StepConsume(p, s, log, k).Some?
    ensures M.StepConsume(p, s, log, k).value.0.mode == s.mode
  {
    hide M.GetInstruction, M.ConsumeRead, M.Imm, M.CallConsume, M.AddrA, M.AddrB, M.NextPc, M.StoreCConsume;
    var i := M.GetInstruction(p.rom, s.pc).value;
    var (s1, k1) := M.SourceAConsume(s, i, log, k).value;
    var (s2, k2) := M.SourceBConsume(s1, i, log, k1).value;
    var (s3, k3) := M.CallConsume(p.prims, i.op, s2, log, k2).value;
    CallConsumeMode(p.prims, i.op, s2, log, k2);
    StoreConsumeMode(s3, i, log, k3);
  }

  lemma CallConsumeMode(prims: M.Prims, op: Op, s: M.State, log: seq<u64>, k: nat)
    requires M.CallConsume(prims, op, s, log, k).Some?
    ensures M.CallConsume(prims, op, s, log, k).value.0.mode == s.mode
  {
    if op.InputSize() > 0 {
      CallKeepsMode(prims, op, s.(inputData := log[k..k + (op.InputSize() + 7) / 8]));
    } else {
      CallKeepsMode(prims, op, s);
    }
    hide M.Call;
  }

  lemma StoreConsumeMode(s: M.State, i: Inst, log: seq<u64>, k: nat)
    requires M.StoreCConsume(s, i, log, k).Some?
    ensures M.StoreCConsume(s, i, log, k).value.0.mode == s.mode
  {
    hide M.SkippedWords, M.StoreAddr;
  }
}
