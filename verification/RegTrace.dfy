/** The chain of accesses to each register: every access records the one before it. */
module RegTrace {
  import opened Words
  import opened Wrappers
  import opened ZiskInst

  const REGS_IN_MAIN := 31

  /** One access to a main register: slot 0 and 1 for the operands, 2 for the result. */
  datatype Access = Access(reg: nat, step: nat, slot: nat) {
    predicate Ok() {
      REGS_IN_MAIN_FROM <= reg <= REGS_IN_MAIN_TO && slot < 3
    }

    function MemStep(): nat {
      MainStepToMemStep(step, slot)
    }
  }

  function MainStepToMemStep(step: nat, slot: nat): nat {
    1 + 4 * step + slot
  }

  predicate Before(x: Access, y: Access) {
    x.step < y.step || (x.step == y.step && x.slot < y.slot)
  }

  /** Memory steps order accesses exactly as steps and slots do. */
  lemma MemStepOrder(x: Access, y: Access)
    requires x.Ok() && y.Ok()
    ensures x.MemStep() < y.MemStep() <==> Before(x, y)
  {
  }

  /** Step and slot can be read back: there are four slots to a step, and memory step 0 is free. */
  lemma MemStepBack(step: nat, slot: nat)
    requires slot < 4
    ensures var m := MainStepToMemStep(step, slot); m > 0 && (m - 1) / 4 == step && (m - 1) % 4 == slot
  {
  }

  /** The accesses so far, in the order of steps and slots. */
  ghost predicate InOrder(history: seq<Access>) {
    && (forall j :: 0 <= j < |history| ==> history[j].Ok())
    && (forall j, k :: 0 <= j < k < |history| ==> Before(history[j], history[k]))
  }

  // ---- what should be recorded ----

  /** The memory step of the latest access to a register, or where the trace started. */
  function LastStep(history: seq<Access>, init: nat, reg: nat): nat {
    if history == [] then init
    else
      var last := history[|history| - 1];
      if last.reg == reg then last.MemStep() else LastStep(history[..|history| - 1], init, reg)
  }

  /** The memory step of the first access to a register; the start counts when it is one. */
  function FirstUse(history: seq<Access>, init: nat, initIsUse: bool, reg: nat): Option<nat> {
    if initIsUse then Some(init)
    else if history == [] then None
    else if history[0].reg == reg then Some(history[0].MemStep())
    else FirstUse(history[1..], init, initIsUse, reg)
  }

  /** The latest access to reg before position n is at position k. */
  ghost predicate Precedes(history: seq<Access>, k: int, n: nat, reg: nat) {
    && 0 <= k < n <= |history| && history[k].reg == reg
    && forall j :: k < j < n ==> history[j].reg != reg
  }

  /** LastStep finds the access that precedes all later positions, or none. */
  lemma {:induction false} LastStepPrecedes(history: seq<Access>, init: nat, reg: nat)
    ensures (exists k :: Precedes(history, k, |history|, reg) && LastStep(history, init, reg) == history[k].MemStep())
         || ((forall j :: 0 <= j < |history| ==> history[j].reg != reg) && LastStep(history, init, reg) == init)
  {
    if history != [] {
      var n := |history| - 1;
      if history[n].reg == reg {
        assert Precedes(history, n, n + 1, reg);
      } else {
        LastStepPrecedes(history[..n], init, reg);
        if k :| Precedes(history[..n], k, n, reg) && LastStep(history[..n], init, reg) == history[..n][k].MemStep() {
          assert Precedes(history, k, n + 1, reg);
        }
      }
    }
  }

  lemma {:induction false} FirstUseNone(history: seq<Access>, init: nat, reg: nat)
    ensures FirstUse(history, init, false, reg).None? <==> forall j :: 0 <= j < |history| ==> history[j].reg != reg
  {
    if history != [] {
      FirstUseNone(history[1..], init, reg);
      assert forall j :: 1 <= j < |history| ==> history[j] == history[1..][j - 1];
    }
  }

  lemma {:induction false} FirstUseAppend(history: seq<Access>, x: Access, init: nat, initIsUse: bool, reg: nat)
    ensures FirstUse(history + [x], init, initIsUse, reg) ==
            if FirstUse(history, init, initIsUse, reg).Some? then FirstUse(history, init, initIsUse, reg)
            else if x.reg == reg then Some(x.MemStep()) else None
  {
    if !initIsUse {
      if history == [] {
        assert ([] + [x])[1..] == [];
      } else {
        FirstUseAppend(history[1..], x, init, initIsUse, reg);
        assert (history + [x])[1..] == history[1..] + [x];
      }
    }
  }

  lemma LastStepAppend(history: seq<Access>, x: Access, init: nat, reg: nat)
    ensures LastStep(history + [x], init, reg) == if x.reg == reg then x.MemStep() else LastStep(history, init, reg)
  {
    assert (history + [x])[..|history|] == history;
  }

  // ---- ranges ----

  /** The distance an access records; none for the first use, which is counted elsewhere. */
  function RangeOf(history: seq<Access>, x: Access, init: nat, initIsUse: bool): nat {
    if FirstUse(history, init, initIsUse, x.reg).None? then 0
    else (if x.MemStep() < LastStep(history, init, x.reg) then 0 else x.MemStep() - LastStep(history, init, x.reg))
  }

  /** The sum of all distances recorded for a register. */
  function SumRanges(history: seq<Access>, init: nat, initIsUse: bool, reg: nat): nat {
    if history == [] then 0
    else
      var n := |history| - 1;
      SumRanges(history[..n], init, initIsUse, reg) +
      (if history[n].reg == reg then RangeOf(history[..n], history[n], init, initIsUse) else 0)
  }

  /** The trace starts before its first access. */
  ghost predicate StartsBefore(history: seq<Access>, init: nat) {
    forall j :: 0 <= j < |history| ==> init < history[j].MemStep()
  }

  /** Every access comes after the one it records, so every range but the first is at least 1. */
  lemma RangePositive(history: seq<Access>, x: Access, init: nat, initIsUse: bool)
    requires InOrder(history + [x]) && StartsBefore(history + [x], init)
    ensures LastStep(history, init, x.reg) < x.MemStep()
    ensures FirstUse(history, init, initIsUse, x.reg).Some? ==> RangeOf(history, x, init, initIsUse) >= 1
  {
    LastStepPrecedes(history, init, x.reg);
    var n := |history|;
    assert (history + [x])[n] == x;
    if k :| Precedes(history, k, n, x.reg) && LastStep(history, init, x.reg) == history[k].MemStep() {
      assert (history + [x])[k] == history[k];
      MemStepOrder(history[k], x);
    }
  }

  lemma OrderPrefix(history: seq<Access>, n: nat, init: nat)
    requires InOrder(history) && n <= |history| && StartsBefore(history, init)
    ensures InOrder(history[..n]) && StartsBefore(history[..n], init)
  {
  }

  /** The ranges of a register add up to the distance from its first use to its last. */
  lemma {:induction false} RangesTelescope(history: seq<Access>, init: nat, initIsUse: bool, reg: nat)
    requires InOrder(history) && StartsBefore(history, init)
    ensures FirstUse(history, init, initIsUse, reg).None? ==> SumRanges(history, init, initIsUse, reg) == 0
    ensures FirstUse(history, init, initIsUse, reg).Some? ==>
              FirstUse(history, init, initIsUse, reg).value + SumRanges(history, init, initIsUse, reg) == LastStep(history, init, reg)
  {
    if history != [] {
      var n := |history| - 1;
      var x := history[n];
      OrderPrefix(history, n, init);
      RangesTelescope(history[..n], init, initIsUse, reg);
      FirstUseAppend(history[..n], x, init, initIsUse, reg);
      assert history == history[..n] + [x];
      RangePositive(history[..n], x, init, initIsUse);
    }
  }

  /** As long as the trace is shorter than 2^32, no range is cut off by the 32-bit field. */
  lemma RangeFits(history: seq<Access>, x: Access, init: nat, initIsUse: bool)
    requires InOrder(history + [x]) && StartsBefore(history + [x], init)
    requires FirstUse(history, init, initIsUse, x.reg).Some?
    requires x.MemStep() < FirstUse(history, init, initIsUse, x.reg).value + 0x1_0000_0000
    ensures 1 <= RangeOf(history, x, init, initIsUse) < 0x1_0000_0000
  {
    RangePositive(history, x, init, initIsUse);
    assert (history + [x])[..|history|] == history;
    OrderPrefix(history + [x], |history|, init);
    RangesTelescope(history, init, initIsUse, x.reg);
  }

  // ---- the tracer ----

  /** What a step leaves in the trace: for each slot the step of the access before it and the distance
      to it, and the value that the result register had before. */
  datatype RegRow = RegRow(prevSteps: seq<u64>, ranges: seq<u32>, storePrevValue: u64)

  class EmuRegTrace {
    const regSteps: array<u64>
    const firstStepUses: array<Option<u64>>
    var regPrevSteps: seq<u64>
    var regStepRanges: seq<u32>
    var storeRegPrevValue: u64

    ghost predicate Valid()
      reads this
    {
      && regSteps.Length == firstStepUses.Length == REGS_IN_MAIN
      && |regPrevSteps| == |regStepRanges| == 3
    }

    function Row(): RegRow
      reads this
    {
      RegRow(regPrevSteps, regStepRanges, storeRegPrevValue)
    }

    /** The arrays describe the accesses so far. */
    ghost predicate Tracks(history: seq<Access>, init: nat, initIsUse: bool)
      reads this, regSteps, firstStepUses
      requires Valid()
    {
      forall r :: 0 <= r < REGS_IN_MAIN ==>
        && regSteps[r] == LastStep(history, init, r + REGS_IN_MAIN_FROM)
        && firstStepUses[r] == FirstUse(history, init, initIsUse, r + REGS_IN_MAIN_FROM)
    }

    constructor FromInitStep(initStep: u64, initAsFirstUses: bool)
      ensures Valid() && fresh(regSteps) && fresh(firstStepUses) && Tracks([], initStep, initAsFirstUses)
      ensures regPrevSteps == [0, 0, 0] && regStepRanges == [0, 0, 0] && storeRegPrevValue == 0
    {
      regSteps := new u64[REGS_IN_MAIN](_ => initStep);
      firstStepUses := new Option<u64>[REGS_IN_MAIN](_ => if initAsFirstUses then Some(initStep) else None);
      regPrevSteps, regStepRanges, storeRegPrevValue := [0, 0, 0], [0, 0, 0], 0;
    }

    method ClearRegStepRanges()
      requires Valid()
      modifies this`regStepRanges
      ensures Valid() && regStepRanges == [0, 0, 0]
    {
      regStepRanges := [0, 0, 0];
    }

    /** Records an access: the step of the access to the same register before it, and, unless this
        is the first, the distance between the two. */
    method TraceRegAccess(reg: nat, step: nat, slot: nat, ghost history: seq<Access>, ghost init: nat, ghost initIsUse: bool)
      requires Valid() && Tracks(history, init, initIsUse) && Access(reg, step, slot).Ok()
      requires InOrder(history + [Access(reg, step, slot)]) && StartsBefore(history + [Access(reg, step, slot)], init)
      requires MainStepToMemStep(step, slot) < 0x1_0000_0000_0000_0000
      modifies this`regPrevSteps, this`regStepRanges, regSteps, firstStepUses
      ensures Valid() && Tracks(history + [Access(reg, step, slot)], init, initIsUse)
      ensures regPrevSteps[slot] == LastStep(history, init, reg)
      ensures forall k :: 0 <= k < 3 && k != slot ==> regPrevSteps[k] == old(regPrevSteps[k])
      ensures regStepRanges ==
              if FirstUse(history, init, initIsUse, reg).None? then old(regStepRanges)
              else old(regStepRanges)[slot := Low32(RangeOf(history, Access(reg, step, slot), init, initIsUse))]
    {
      ghost var x := Access(reg, step, slot);
      assert (history + [x])[|history|] == x;
      RangePositive(history, x, init, initIsUse);
      forall r | 0 <= r < REGS_IN_MAIN
        ensures LastStep(history + [x], init, r + REGS_IN_MAIN_FROM) ==
                if reg == r + REGS_IN_MAIN_FROM then x.MemStep() else regSteps[r]
        ensures FirstUse(history + [x], init, initIsUse, r + REGS_IN_MAIN_FROM) ==
                if firstStepUses[r].Some? then firstStepUses[r]
                else if reg == r + REGS_IN_MAIN_FROM then Some(x.MemStep()) else None
      {
        LastStepAppend(history, x, init, r + REGS_IN_MAIN_FROM);
        FirstUseAppend(history, x, init, initIsUse, r + REGS_IN_MAIN_FROM);
      }
      var ireg := reg - REGS_IN_MAIN_FROM;
      var firstReference := firstStepUses[ireg].None?;
      if firstReference {
        firstStepUses[ireg] := Some(MainStepToMemStep(step, slot));
      }
      var currentRegStep := MainStepToMemStep(step, slot);
      var prevRegStep := regSteps[ireg];
      if !firstReference {
        regStepRanges := regStepRanges[slot := Low32(currentRegStep - prevRegStep)];
      }
      regPrevSteps := regPrevSteps[slot := prevRegStep];
      regSteps[ireg] := currentRegStep;
    }
  }

  // ---- chunks ----

  /** Chunks after the first are traced from step 0. As no access has memory step 0, a register that
      still shows 0 was not used, and its latest access is in an earlier chunk. */
  function Carried(lastInChunk: nat, before: nat): nat {
    if lastInChunk == 0 then before else lastInChunk
  }

  /** Carrying the steps over chunk boundaries gives the chain of the whole run. */
  lemma {:induction false} ChunksJoin(earlier: seq<Access>, chunk: seq<Access>, init: nat, reg: nat)
    requires forall j :: 0 <= j < |chunk| ==> chunk[j].Ok()
    ensures LastStep(earlier + chunk, init, reg) == Carried(LastStep(chunk, 0, reg), LastStep(earlier, init, reg))
    decreases |chunk|
  {
    if chunk == [] {
      assert earlier + chunk == earlier;
    } else {
      var n := |chunk| - 1;
      ChunksJoin(earlier, chunk[..n], init, reg);
      assert (earlier + chunk)[..|earlier| + n] == earlier + chunk[..n];
    }
  }

  /** The first access of a chunk gets the previous step it could not know. */
  lemma {:induction false} FirstOfChunk(earlier: seq<Access>, chunk: seq<Access>, k: nat, init: nat)
    requires k < |chunk| && (forall j :: 0 <= j < |chunk| ==> chunk[j].Ok())
    requires forall j :: 0 <= j < k ==> chunk[j].reg != chunk[k].reg
    ensures LastStep(earlier + chunk[..k], init, chunk[k].reg) == LastStep(earlier, init, chunk[k].reg)
  {
    ChunksJoin(earlier, chunk[..k], init, chunk[k].reg);
    LastStepPrecedes(chunk[..k], 0, chunk[k].reg);
    assert forall j :: 0 <= j < k ==> chunk[..k][j] == chunk[j];
  }
}
