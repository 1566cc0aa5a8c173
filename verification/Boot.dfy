/** Whole runs, from the first instruction to the last: data are stored, the program is called and
    simulated, its output is published. */
module Boot {
  import opened Words
  import opened Wrappers
  import opened MemoryModel
  import opened MemoryLemmas
  import opened MemObject
  import opened ZiskInst
  import opened ZiskOps
  import opened Machine
  import opened Traces
  import opened Chunks
  import opened Riscv
  import opened RiscvMemory
  import opened Transpiler
  import opened MicroExec
  import opened MicroRuns
  import opened Simulation
  import opened Program
  import opened InitData
  import opened Bios
  import opened Elf2Rom
  import E = EmuContext
  import C = ChunkReplay

  // ---- only the last instruction ends a run ----

  lemma StepEnds(p: Platform, s: State, i: Inst)
    requires GetInstruction(p.rom, s.pc) == Some(i) && Step(p, s).Some?
    ensures Step(p, s).value.end == i.end
    ensures IsLast(i) ==> Step(p, s).value.pc == s.pc
  {
    hide GetInstruction, SourceA, Rest, IsLast;
    assert SourceA(s, i).value.pc == s.pc by { C.SourcesKeepPc(s, i); }
    RestEnds(p.prims, i, SourceA(s, i).value);
  }

  lemma RestEnds(prims: Prims, i: Inst, s1: State)
    requires Rest(prims, i, s1).Some?
    ensures Rest(prims, i, s1).value.end == i.end
    ensures IsLast(i) ==> Rest(prims, i, s1).value.pc == s1.pc
  {
    hide SourceB, StoreC, Call, NextPc;
    C.SourcesKeepPc(s1, i);
    var s2 := SourceB(s1, i).value;
    if IsLast(i) {
      CallAlu(prims, CopyB, s2);
      C.StoreKeepsPc(Called(s2, CopyB, s2.a, s2.b), i);
      NextOfLast(StoreC(Called(s2, CopyB, s2.a, s2.b), i).value, i);
    }
  }

  lemma NextOfLast(s: State, i: Inst)
    requires IsLast(i)
    ensures NextPc(s, i) == s.pc
  {
  }

  predicate LastFetched(p: Platform, pc: u64) {
    GetInstruction(p.rom, pc).Some? && IsLast(GetInstruction(p.rom, pc).value)
  }

  lemma {:induction false} StuckOnLast(p: Platform, s: State, n: nat)
    requires LastFetched(p, s.pc) && Run(p, s, n).Some?
    ensures Run(p, s, n).value.pc == s.pc
  {
    hide Step, GetInstruction, IsLast;
    if n > 0 {
      StuckOnLast(p, s, n - 1);
      StepEnds(p, Run(p, s, n - 1).value, GetInstruction(p.rom, s.pc).value);
    }
  }

  predicate EndFetched(p: Platform, pc: u64) {
    GetInstruction(p.rom, pc).Some? && GetInstruction(p.rom, pc).value.end
  }

  /** A run that is anywhere but at an end instruction has not ended before. */
  lemma NotEnded(p: Platform, s: State, k: nat, n: nat)
    requires C.WellBuilt(p.rom) && !s.end && k <= n
    requires Run(p, s, n).Some? && !EndFetched(p, Run(p, s, n).value.pc)
    ensures Unfinished(p, s, k)
  {
    hide Step, Run, IsLast, GetInstruction, C.FillerAt;
    RunNothing(p, s);
    RunPrefix(p, s, k, n);
    if k > 0 {
      RunPrefix(p, s, k - 1, n);
      var u := Run(p, s, k - 1).value;
      LastStep(p, s, k);
      StepFetches(p, u);
      var i := GetInstruction(p.rom, u.pc).value;
      StepEnds(p, u, i);
      if i.end {
        assert C.LastAt(p.rom, u.pc);
        RunAdd(p, s, k - 1, n - (k - 1));
        StuckOnLast(p, u, n - (k - 1));
      }
    }
  }

  lemma LastStep(p: Platform, s: State, k: nat)
    requires k > 0 && Run(p, s, k - 1).Some?
    ensures Run(p, s, k) == Step(p, Run(p, s, k - 1).value)
  {
    hide Step;
  }

  lemma StepFetches(p: Platform, s: State)
    requires Step(p, s).Some?
    ensures GetInstruction(p.rom, s.pc).Some?
  {
    hide GetInstruction, Rest, SourceA;
  }

  /** A run that goes on to a state that halts, halts. */
  lemma HaltsLater(p: Platform, s: State, m: nat, n: nat)
    requires C.WellBuilt(p.rom) && !s.end && Run(p, s, m).Some? && !EndFetched(p, Run(p, s, m).value.pc)
    requires Halts(p, Run(p, s, m).value, n)
    ensures Halts(p, s, m + n)
  {
    hide Run, EndFetched, C.WellBuilt;
    var t := Run(p, s, m).value;
    RunAdd(p, s, m, n);
    forall k | 0 <= k < m + n
      ensures Unfinished(p, s, k)
    {
      if k <= m {
        NotEnded(p, s, k, m);
      } else {
        assert Unfinished(p, t, k - m);
        RunAdd(p, s, m, k - m);
      }
    }
  }

  // ---- storing all data ----

  /** The bytes after the first n items were stored over b. */
  ghost function Overlay(b: map<int, u8>, items: seq<Piece>, n: nat): map<int, u8>
    requires n <= |items|
  {
    if n == 0 then b
    else Overlay(b, items, n - 1) + Image(items[n - 1].start, items[n - 1].bytes, WordsOf(|items[n - 1].bytes|))
  }

  predicate ItemAccessible(m: Memory, item: Piece) {
    forall k :: 0 <= k < WordsOf(|item.bytes|) ==> WordAccessible(m, item.start, k)
  }

  ghost predicate AllAccessible(m: Memory, items: seq<Piece>, n: nat)
    requires n <= |items|
  {
    forall j :: 0 <= j < n ==> ItemAccessible(m, items[j])
  }

  ghost predicate ItemsStored(s: State, r: Option<State>, items: seq<Piece>, n: nat)
    requires n <= |items|
  {
    && r.Some? && r.value.regs == s.regs && r.value.pc == ItemAddress(items, n)
    && Bytes(r.value.mem) == Overlay(Bytes(s.mem), items, n)
    && SameLayout(s.mem, r.value.mem)
  }

  lemma SameAccessible(m: Memory, m': Memory, item: Piece)
    requires SameLayout(m, m')
    ensures ItemAccessible(m, item) <==> ItemAccessible(m', item)
  {
    hide Accessible, WordsOf, SameLayout;
    forall k: nat
      ensures WordAccessible(m, item.start, k) <==> WordAccessible(m', item.start, k)
    {
      LayoutAccessible(m, m', item.start + 8 * k, 8);
    }
  }

  /** The start-up code stores one item after the other, and panics exactly when some word of them
      is outside all sections. */
  lemma {:induction false} ItemsRun(p: Platform, s: State, items: seq<Piece>, n: nat)
    requires n <= |items| && ItemsFetched(p.rom, items) && s.pc == ROM_ENTRY + 8
    ensures Run(p, s, TotalWords(items, n)).Some? <==> AllAccessible(s.mem, items, n)
    ensures Run(p, s, TotalWords(items, n)).Some? ==> ItemsStored(s, Run(p, s, TotalWords(items, n)), items, n)
  {
    hide Run, WordsOf, Image, Bytes, SameLayout, ItemAccessible, ItemFetched;
    if n == 0 {
      RunNothing(p, s);
      LayoutReflexive(s.mem);
    } else {
      var done, item := TotalWords(items, n - 1), items[n - 1];
      ItemsRun(p, s, items, n - 1);
      RunAdd(p, s, done, WordsOf(|item.bytes|));
      if Run(p, s, done).Some? {
        var t := Run(p, s, done).value;
        ItemRun(p, t, item);
        SameAccessible(s.mem, t.mem, item);
        if ItemAccessible(t.mem, item) {
          LayoutTransitive(s.mem, t.mem, Run(p, t, WordsOf(|item.bytes|)).value.mem);
        }
      }
    }
  }

  lemma ItemRun(p: Platform, s: State, item: Piece)
    requires ItemFetched(p.rom, item, s.pc)
    ensures var n := WordsOf(|item.bytes|);
            && (Run(p, s, n).Some? <==> ItemAccessible(s.mem, item))
            && (Run(p, s, n).Some? ==> DataStored(s, Run(p, s, n), item.start, item.bytes, n))
  {
    hide Run, Accessible, FetchedAs, InitInst, WordAt, Bytes, Image, SameLayout;
    WordsBound(|item.bytes|);
    InitDataRuns(p, s, item.start, item.bytes, WordsOf(|item.bytes|));
  }

  predicate InItem(item: Piece, a: int) {
    item.start <= a < item.start + 8 * WordsOf(|item.bytes|)
  }

  /** What start-up puts at an address is the byte of the last item there, or zero after its end. */
  lemma {:induction false} OverlayAt(b: map<int, u8>, items: seq<Piece>, n: nat, j: nat, a: int)
    requires j < n <= |items| && InItem(items[j], a) && forall k :: j < k < n ==> !InItem(items[k], a)
    ensures a in Overlay(b, items, n) && Overlay(b, items, n)[a] == Filled(items[j].bytes, a - items[j].start)
    decreases n
  {
    hide WordsOf;
    if j < n - 1 {
      OverlayAt(b, items, n - 1, j, a);
      ImageKeys(items[n - 1], a);
      hide Image;
    } else {
      assert FilledAt(items[j].start, items[j].bytes, a) == Filled(items[j].bytes, a - items[j].start);
    }
  }

  lemma ImageKeys(item: Piece, a: int)
    ensures a in Image(item.start, item.bytes, WordsOf(|item.bytes|)) <==> InItem(item, a)
  {
    hide WordsOf;
  }

  /** All other bytes are left alone. */
  lemma {:induction false} OverlayElsewhere(b: map<int, u8>, items: seq<Piece>, n: nat, a: int)
    requires n <= |items| && forall k :: 0 <= k < n ==> !InItem(items[k], a)
    ensures a in Overlay(b, items, n) <==> a in b
    ensures a in b ==> Overlay(b, items, n)[a] == b[a]
  {
    hide WordsOf, Image;
    if n > 0 {
      OverlayElsewhere(b, items, n - 1, a);
      ImageKeys(items[n - 1], a);
    }
  }

  // ---- calling the program ----

  /** Copying a constant to memory. */
  lemma CopyToMem(p: Platform, s: State, z: Inst, v: u64, addr: u64, m: Option<Memory>)
    requires !z.setPc && s.pc + 4 < 0x1_0000_0000_0000_0000 && addr < 0x1_0000_0000
    requires FetchedAs(p.rom, s.pc, CopyTo(z, v).StoreTo(TMem, addr, false, false).J(4, 4))
    requires m == Write(s.mem, addr, v, 8)
    ensures m.None? ==> Step(p, s).None?
    ensures m.Some? ==> Reaches(Step(p, s), s.regs, s.pc + 4, m.value)
  {
    hide Imm, Step, FetchedAs, Write, MicroExec.Stored, Exec;
    var i := CopyTo(z, v).StoreTo(TMem, addr, false, false).J(4, 4);
    StepAs(p, s, i);
    CopyShape(z, v, s);
    SameOperands(s, CopyTo(z, v), i);
    ExecDirect(p.prims, i, s, 0, v);
    WrapSmall(addr);
    WrapSmall(s.pc + 4);
    hide Wrap;
    var t := Called(s, CopyB, 0, v);
    StoreToMem(t, i, m);
  }

  /** Jumping to the program, with the return address in x1. */
  lemma CallMoves(p: Platform, s: State, z: Inst, addr: u64)
    requires !z.end && s.pc + 4 < 0x1_0000_0000_0000_0000
    requires FetchedAs(p.rom, s.pc, CopyTo(z, addr).WithSetPc().StoreRa(TReg, 1, false).J(0, 4))
    ensures Reaches(Step(p, s), PutReg(s.regs, 1, s.pc + 4), addr, s.mem)
  {
    hide Imm, Step, FetchedAs, MicroExec.Stored, Exec;
    var i := CopyTo(z, addr).WithSetPc().StoreRa(TReg, 1, false).J(0, 4);
    StepAs(p, s, i);
    CopyShape(z, addr, s);
    SameOperands(s, CopyTo(z, addr), i);
    ExecDirect(p.prims, i, s, 0, addr);
    WrapSmall(addr);
    WrapSmall(s.pc + 4);
    hide Wrap;
    StoreToReg(Called(s, CopyB, 0, addr), i, 1);
  }

  const MARCHID: u64 := CSR_ADDR + 0xF12

  /** Identification and the address of the trap handler can be stored. */
  predicate CsrAccessible(m: Memory) {
    Accessible(m, MARCHID, 8) && Accessible(m, MTVEC, 8)
  }

  function CsrBytes(b: map<int, u8>, base: u64): map<int, u8>
    requires base + 0x40 < 0x1_0000_0000_0000_0000
  {
    b + LeMap(MARCHID, ARCH_ID_ZISK, 8) + LeMap(MTVEC, base + 0x38, 8)
  }

  /** What a program is called with: its parameters and the address to return to. */
  function CallRegs(regs: Words32, base: u64): Words32
    requires base + 0x40 < 0x1_0000_0000_0000_0000
  {
    regs[10 := INPUT_ADDR][11 := OUTPUT_ADDR][1 := base + 0x14]
  }

  /** One of the two constants is stored. */
  ghost predicate CsrStored(s: State, r: Option<State>, addr: u64, v: u64) {
    && r.Some? && r.value.regs == s.regs && r.value.pc == s.pc + 4
    && Bytes(r.value.mem) == Bytes(s.mem) + LeMap(addr, v, 8) && SameLayout(s.mem, r.value.mem)
  }

  lemma CsrStep(p: Platform, s: State, z: Inst, v: u64, addr: u64)
    requires !z.setPc && s.pc + 4 < 0x1_0000_0000_0000_0000 && addr < 0x1_0000_0000
    requires FetchedAs(p.rom, s.pc, CopyTo(z, v).StoreTo(TMem, addr, false, false).J(4, 4))
    ensures Step(p, s).Some? <==> Accessible(s.mem, addr, 8)
    ensures Step(p, s).Some? ==> CsrStored(s, Step(p, s), addr, v)
  {
    hide Step, FetchedAs, Write, Bytes, LeMap, Accessible, CopyTo, Inst.StoreTo, SameLayout;
    WriteRefinesBytes(s.mem, addr, v, 8);
    assert ValidWidth(8);
    CopyToMem(p, s, z, v, addr, Write(s.mem, addr, v, 8));
  }

  ghost predicate EntryDone(s: State, r: Option<State>, base: u64, addr: u64)
    requires base + 0x40 < 0x1_0000_0000_0000_0000
  {
    && r.Some? && r.value.regs == CallRegs(s.regs, base) && r.value.pc == addr
    && Bytes(r.value.mem) == CsrBytes(Bytes(s.mem), base) && SameLayout(s.mem, r.value.mem)
  }

  lemma CsrSteps(p: Platform, s: State, base: u64, addr: u64)
    requires base + 0x40 < 0x1_0000_0000 && FetchesBios(p.rom, base, addr) && s.pc == base
    ensures Run(p, s, 2).Some? <==> CsrAccessible(s.mem)
    ensures Run(p, s, 2).Some? ==>
              var t := Run(p, s, 2).value;
              t.regs == s.regs && t.pc == base + 8 && Bytes(t.mem) == CsrBytes(Bytes(s.mem), base) && SameLayout(s.mem, t.mem)
  {
    hide Step, Run, FetchedAs, BiosInst, FetchesBios, Bytes, LeMap, Accessible, CopyTo, Inst.StoreTo, SameLayout, SetReg;
    EntryInsts(base, addr);
    FetchBios(p.rom, base, addr, 0);
    CsrStep(p, s, NewInst(base), ARCH_ID_ZISK, MARCHID);
    RunMore(p, s, 1);
    if Step(p, s).Some? {
      var t1 := Step(p, s).value;
      RunOne(p, t1);
      FetchBios(p.rom, base, addr, 1);
      CsrStep(p, t1, NewInst(base + 4), base + 0x38, MTVEC);
      LayoutAccessible(s.mem, t1.mem, MTVEC, 8);
      if Step(p, t1).Some? {
        LayoutTransitive(s.mem, t1.mem, Step(p, t1).value.mem);
      }
    }
  }

  lemma CallSteps(p: Platform, s: State, base: u64, addr: u64)
    requires base + 0x40 < 0x1_0000_0000 && FetchesBios(p.rom, base, addr) && s.pc == base + 8
    ensures Reaches(Run(p, s, 3), CallRegs(s.regs, base), addr, s.mem)
  {
    hide Step, Run, FetchedAs, BiosInst, FetchesBios, CopyTo, Inst.StoreTo, SetReg, Inst.WithSetPc, Inst.StoreRa;
    EntryInsts(base, addr);
    FetchBios(p.rom, base, addr, 2);
    var t1 := SetRegMoves(p, s, NewInst(base + 8), INPUT_ADDR, 10);
    FetchBios(p.rom, base, addr, 3);
    var t2 := SetRegMoves(p, t1, NewInst(base + 0xC), OUTPUT_ADDR, 11);
    FetchBios(p.rom, base, addr, 4);
    CallMoves(p, t2, NewInst(base + 0x10), addr);
    RunMore(p, s, 2);
    RunMore(p, t1, 1);
    RunOne(p, t2);
  }

  /** The entry code calls the program with its parameters; it panics exactly when the two control
      registers have no memory. */
  lemma EntryRuns(p: Platform, s: State, base: u64, addr: u64)
    requires base + 0x40 < 0x1_0000_0000 && FetchesBios(p.rom, base, addr) && s.pc == base
    ensures Run(p, s, 5).Some? <==> CsrAccessible(s.mem)
    ensures Run(p, s, 5).Some? ==> EntryDone(s, Run(p, s, 5), base, addr)
  {
    hide Run, FetchesBios, Bytes, CsrBytes, SameLayout, CsrAccessible, CallRegs;
    CsrSteps(p, s, base, addr);
    RunAdd(p, s, 2, 3);
    if Run(p, s, 2).Some? {
      CallSteps(p, Run(p, s, 2).value, base, addr);
    }
  }

  // ---- start-up ----

  /** How many steps lead to the program. */
  function BootSteps(sections: seq<ElfSection>): nat {
    1 + TotalWords(Items(sections), |Items(sections)|) + 5
  }

  ghost predicate BootAccessible(m: Memory, sections: seq<ElfSection>) {
    AllAccessible(m, Items(sections), |Items(sections)|) && CsrAccessible(m)
  }

  /** The program is about to run, its data and the control registers in memory. */
  ghost predicate Booted(s: State, r: Option<State>, sections: seq<ElfSection>, entry: u64)
    requires EntryAddress(sections) + 0x40 <= ROM_ADDR
  {
    var base := EntryAddress(sections);
    && r.Some? && r.value.regs == CallRegs(s.regs, base) && r.value.pc == entry
    && Bytes(r.value.mem) == CsrBytes(Overlay(Bytes(s.mem), Items(sections), |Items(sections)|), base)
    && SameLayout(s.mem, r.value.mem)
  }

  /** The first step only jumps over the end instruction. */
  lemma JumpMoves(p: Platform, s: State) returns (t: State)
    requires FetchedAs(p.rom, ROM_ENTRY, JumpOverEnd()) && s.pc == ROM_ENTRY
    ensures Step(p, s) == Some(t) && Moves(s, t, 0, 0, ROM_ENTRY + 8)
  {
    hide Imm, Step, FetchedAs;
    WrapSmall(ROM_ENTRY + 8);
    hide Wrap;
    var i := JumpOverEnd();
    CopyShape(NewInst(ROM_ENTRY), 0, s);
    SameOperands(s, CopyTo(NewInst(ROM_ENTRY), 0), i);
    t := Moved(p, s, i, 0, 0, 0, 0, false);
  }

  /** Start-up. From the first instruction of the rom, the program is reached with its parameters, its
      return address and all data of the file in memory, and no other byte changed, in a fixed number
      of steps; it panics exactly when some of these words are outside all sections. */
  lemma Boots(p: Platform, s: State, sections: seq<ElfSection>, entry: u64)
    requires RomFor(p.rom, sections, entry) && s.pc == ROM_ENTRY
    ensures Run(p, s, BootSteps(sections)).Some? <==> BootAccessible(s.mem, sections)
    ensures Run(p, s, BootSteps(sections)).Some? ==> Booted(s, Run(p, s, BootSteps(sections)), sections, entry)
  {
    hide Run, FetchesBios, Bytes, CsrBytes, SameLayout, CsrAccessible, CallRegs, ItemsFetched, FetchedAs, JumpOverEnd,
      AllAccessible, Overlay, C.WellBuilt, Items, TotalWords, Step;
    var items, base := Items(sections), EntryAddress(sections);
    var n := TotalWords(items, |items|);
    var t1 := JumpMoves(p, s);
    RunOne(p, s);
    RunAdd(p, s, 1, n);
    ItemsRun(p, t1, items, |items|);
    RunAdd(p, s, 1 + n, 5);
    if Run(p, t1, n).Some? {
      var t2 := Run(p, t1, n).value;
      EntryRuns(p, t2, base, entry);
      SameCsr(s.mem, t2.mem);
      if Run(p, t2, 5).Some? {
        LayoutTransitive(s.mem, t2.mem, Run(p, t2, 5).value.mem);
      }
    }
  }

  lemma SameCsr(m: Memory, m': Memory)
    requires SameLayout(m, m')
    ensures CsrAccessible(m) <==> CsrAccessible(m')
  {
    hide Accessible, SameLayout;
    LayoutAccessible(m, m', MARCHID, 8);
    LayoutAccessible(m, m', MTVEC, 8);
  }

  // ---- the whole run ----

  /** Instruction i stands at address pc of the section. */
  ghost predicate StandsAt(s: ElfSection, i: RvInst, pc: int) {
    s.IsCode() && exists k :: 0 <= k < |Instructions(s.Code())| && pc == AddressOf(s.addr, k) && Instructions(s.Code())[k] == i
  }

  /** The instructions of all code sections, by address. */
  ghost predicate CodeOf(code: Code, sections: seq<ElfSection>) {
    && (forall pc :: pc in code ==> exists j :: 0 <= j < |sections| && StandsAt(sections[j], code[pc], pc))
    && (forall pc: u64, i, j :: 0 <= j < |sections| && StandsAt(sections[j], i, pc) ==> pc in code && code[pc] == i)
  }

  lemma RomCompiled(rom: Rom, sections: seq<ElfSection>, entry: u64, code: Code)
    requires RomFor(rom, sections, entry) && CodeOf(code, sections)
    ensures Compiled(rom, code)
  {
    hide Encodable, Emitted, Instructions, ItemsFetched, EntryAddress, FetchesBios, FetchedAs, C.WellBuilt;
    forall pc | pc in code
      ensures Encodable(code[pc]) && Emitted(rom, code[pc], pc)
    {
      var j :| 0 <= j < |sections| && StandsAt(sections[j], code[pc], pc);
      assert CodeFetched(rom, sections[j]);
      var insts := Instructions(sections[j].Code());
      var k :| 0 <= k < |insts| && pc == AddressOf(sections[j].addr, k) && insts[k] == code[pc];
      assert CodeAt(rom, sections[j].addr, insts[k], k);
    }
  }

  /** The hart that a program is started on: memory as loaded, parameters and return address in registers. */
  ghost function StartHart(s: State, sections: seq<ElfSection>, entry: u64): Hart
    requires EntryAddress(sections) + 0x40 <= ROM_ADDR
  {
    var base := EntryAddress(sections);
    Hart(CallRegs(s.regs, base), entry, CsrBytes(Overlay(Bytes(s.mem), Items(sections), |Items(sections)|), base),
         RegionsOf(s.mem), None)
  }

  lemma StartRelated(s: State, r: Option<State>, sections: seq<ElfSection>, entry: u64)
    requires EntryAddress(sections) + 0x40 <= ROM_ADDR && Booted(s, r, sections, entry)
    requires Accessible(s.mem, TEMP_ADDR, 8)
    ensures Related(StartHart(s, sections, entry), r.value)
  {
    hide Bytes, CsrBytes, SameLayout, Overlay, Items, CallRegs, RegionsOf, Accessible, EntryAddress;
    SameRegions(s.mem, r.value.mem);
    LayoutAccessible(s.mem, r.value.mem, TEMP_ADDR, 8);
  }

  /** The words in the output area of a hart. */
  ghost predicate Output(h: Hart, w: seq<u64>) {
    |w| == 32 && forall i :: 0 <= i < 32 ==> OutputAt(h, i, w[i])
  }

  ghost predicate OutputAt(h: Hart, i: nat, w: u64) {
    Permits(h.regions, OUTPUT_ADDR + 8 * i, 8) && LeAt(h.mem, OUTPUT_ADDR + 8 * i, 8) == w
  }

  lemma OutputSeen(h: Hart, s: State, w: seq<u64>)
    requires Related(h, s) && Output(h, w)
    ensures |w| == 32 && OutputWords(s.mem, w)
  {
    hide Read, LeAt, Permits, SameMemory, RegsMatch;
    forall i | 0 <= i < 32
      ensures OutputWord(s.mem, i, w[i])
    {
      assert OutputAt(h, i, w[i]);
      ReadMatches(h, s.mem, OUTPUT_ADDR + 8 * i, 8);
    }
  }

  /** None of the instructions around the program ends a run. */
  lemma BiosGoesOn(p: Platform, base: u64, addr: u64, k: nat)
    requires base + 0x40 < 0x1_0000_0000 && FetchesBios(p.rom, base, addr) && k < 16
    ensures !EndFetched(p, base + 4 * k)
  {
    hide FetchedAs, FetchesBios, GetInstruction, BiosInst;
    FetchBios(p.rom, base, addr, k);
    BiosNoEnd(base, addr, k);
    NoEnd(p.rom, base + 4 * k, BiosInst(base, addr, k));
  }

  lemma BiosNoEnd(base: u64, addr: u64, k: nat)
    requires base + 0x40 < 0x1_0000_0000_0000_0000 && k < 16
    ensures !BiosInst(base, addr, k).end
  {
    hide Low32, High32, Wrap;
  }

  lemma NoEnd(rom: Rom, pc: u64, i: Inst)
    requires FetchedAs(rom, pc, i) && !i.end
    ensures GetInstruction(rom, pc).Some? && !GetInstruction(rom, pc).value.end
  {
    hide GetInstruction;
    var fetched := GetInstruction(rom, pc).value;
    assert fetched.(sortedPcListIndex := 0).end == fetched.end;
  }

  /** A state to start from, for the rom of these sections and the code in them. */
  ghost predicate Ready(p: Platform, s: State, sections: seq<ElfSection>, entry: u64, code: Code) {
    && RomFor(p.rom, sections, entry) && CodeOf(code, sections) && s.pc == ROM_ENTRY && !s.end
    && BootAccessible(s.mem, sections) && Accessible(s.mem, TEMP_ADDR, 8)
  }

  /** The program returns after n ordinary instructions, with words w in the output area. */
  ghost predicate Returns(code: Code, h: Hart, n: nat, target: int, w: seq<u64>) {
    && AllOrdinary(code, h, n) && RvRun(code, h, n).Next?
    && RvRun(code, h, n).hart.pc == target && Output(RvRun(code, h, n).hart, w)
  }

  /** After m steps the state matches hart h, and in 166 more the run publishes w and halts. */
  ghost predicate Publishes32(p: Platform, s: State, m: nat, h: Hart, w: seq<u64>)
    requires |w| == 32
  {
    && Run(p, s, m).Some? && Related(h, Run(p, s, m).value)
    && Exits(p, Run(p, s, m).value, 166, Published(w, 0), Run(p, s, m).value.mem)
    && Halts(p, s, m + 166)
  }

  /** The emulator gets to where the program is after n instructions. */
  lemma ProgramReached(p: Platform, s: State, sections: seq<ElfSection>, entry: u64, code: Code, h: Hart, n: nat)
    requires Ready(p, s, sections, entry, code) && h == StartHart(s, sections, entry)
    requires AllOrdinary(code, h, n)
    ensures Agrees(RvRun(code, h, n), Run(p, s, BootSteps(sections) + MicroCount(code, h, n)))
  {
    hide Run, Related, BootAccessible, StartHart, Booted, CodeOf, AllOrdinary, Agrees, Accessible,
      RomFor, Compiled, MicroCount, BootSteps, RvRun;
    EntryRoom(p.rom, sections, entry);
    hide EntryAddress;
    Boots(p, s, sections, entry);
    StartRelated(s, Run(p, s, BootSteps(sections)), sections, entry);
    RomCompiled(p.rom, sections, entry, code);
    var t := Run(p, s, BootSteps(sections)).value;
    ProgramSimulated(p, code, h, t, n);
    RunAdd(p, s, BootSteps(sections), MicroCount(code, h, n));
  }

  lemma EntryRoom(rom: Rom, sections: seq<ElfSection>, entry: u64)
    requires RomFor(rom, sections, entry)
    ensures EntryAddress(sections) + 0x40 <= ROM_ADDR && FetchesBios(rom, EntryAddress(sections), entry)
    ensures C.WellBuilt(rom)
  {
    hide FetchesBios, CodeFetched, ItemsFetched, FetchedAs, C.WellBuilt;
  }

  /** Everything together. If the RISC-V program of the file, started on a hart with its data, returns
      after n instructions, the emulator, started at the first instruction of the rom, runs through the
      same instructions, publishes what the program left in the output area, and halts after exactly
      this many steps. */
  lemma ProgramPublishes(p: Platform, s: State, sections: seq<ElfSection>, entry: u64, code: Code, h: Hart, n: nat, w: seq<u64>)
    requires Ready(p, s, sections, entry, code) && h == StartHart(s, sections, entry)
    requires Returns(code, h, n, EntryAddress(sections) + 0x14, w)
    ensures |w| == 32 && RvRun(code, h, n).Next?
    ensures Publishes32(p, s, BootSteps(sections) + MicroCount(code, h, n), RvRun(code, h, n).hart, w)
  {
    hide Run, Related, BootAccessible, StartHart, CodeOf, AllOrdinary, Accessible, Exits, Halts, Published, Output,
      OutputWords, FetchesBios, RomFor, C.WellBuilt, MicroCount, BootSteps, RvRun, EndFetched;
    EntryRoom(p.rom, sections, entry);
    hide EntryAddress;
    ProgramReached(p, s, sections, entry, code, h, n);
    var done, base := BootSteps(sections) + MicroCount(code, h, n), EntryAddress(sections);
    var u := Run(p, s, done).value;
    SamePc(RvRun(code, h, n).hart, u);
    OutputSeen(RvRun(code, h, n).hart, u, w);
    BiosGoesOn(p, base, entry, 5);
    Finishes(p, s, done, base, entry, w);
  }

  /** At the return address, the exit code does the rest. */
  lemma Finishes(p: Platform, s: State, m: nat, base: u64, entry: u64, w: seq<u64>)
    requires base + 0x40 < 0x1_0000_0000 && FetchesBios(p.rom, base, entry) && C.WellBuilt(p.rom)
    requires !s.end && Run(p, s, m).Some? && Run(p, s, m).value.pc == base + 0x14 && !EndFetched(p, base + 0x14)
    requires |w| == 32 && OutputWords(Run(p, s, m).value.mem, w)
    ensures Exits(p, Run(p, s, m).value, 166, Published(w, 0), Run(p, s, m).value.mem) && Halts(p, s, m + 166)
  {
    hide Run, Exits, Halts, Published, OutputWords, FetchesBios, C.WellBuilt, EndFetched;
    NotEnded(p, s, m, m);
    ExitPublishes(p, Run(p, s, m).value, base, entry, w);
    HaltsLater(p, s, m, 166);
  }

  // ---- leaving by a system call ----

  /** The system call jumps to the address in the trap vector. */
  lemma EcallMoves(p: Platform, s: State, target: u64)
    requires FetchedAs(p.rom, s.pc, EcallInst(s.pc)) && s.pc + 4 < 0x1_0000_0000_0000_0000
    requires Read(s.mem, MTVEC, 8) == Some(target)
    ensures Reaches(Step(p, s), PutReg(s.regs, 1, s.pc + 4), target, s.mem)
  {
    hide Imm, Step, FetchedAs, MicroExec.Stored, Exec, Read;
    var z, i := NewInst(s.pc), EcallInst(s.pc);
    StepAs(p, s, i);
    ImmediateA(z, 0, s);
    assert DirectA(s, i) == DirectA(s, z.SrcA(AImm, 0, false));
    assert MemoryB(i) && AddrB(s.(a := 0), i) == MTVEC && WidthB(i) == 8;
    ExecLoad(p.prims, i, s, 0, Some(target));
    WrapSmall(target);
    WrapSmall(s.pc + 4);
    hide Wrap;
    StoreToReg(Called(s, CopyB, 0, target), i, 1);
  }

  /** After n ordinary instructions the program stands at a system call that asks to exit, with words w
      in the output area and the trap vector as it found it. */
  ghost predicate AsksToExit(code: Code, h: Hart, n: nat, handler: int, w: seq<u64>) {
    AllOrdinary(code, h, n) && RvRun(code, h, n).Next? && ExitsBy(code, RvRun(code, h, n).hart, handler, w)
  }

  ghost predicate ExitsBy(code: Code, h: Hart, handler: int, w: seq<u64>) {
    && h.pc in code && code[h.pc].op.Ecall? && h.x[17] == CAUSE_EXIT
    && Permits(h.regions, MTVEC, 8) && LeAt(h.mem, MTVEC, 8) == handler && Output(h, w)
  }

  /** The step of the system call leads to the trap handler. */
  lemma EcallReaches(p: Platform, code: Code, h: Hart, s: State, handler: u64, w: seq<u64>)
    requires Compiled(p.rom, code) && Related(h, s) && ExitsBy(code, h, handler, w)
    ensures Reaches(Step(p, s), PutReg(s.regs, 1, s.pc + 4), handler, s.mem)
    ensures s.regs[17] == CAUSE_EXIT && |w| == 32 && OutputWords(s.mem, w)
  {
    hide Read, LeAt, Permits, SameMemory, FetchedAs, Step, Output, OutputWords, EcallInst, Encodable;
    OutputSeen(h, s, w);
    ReadMatches(h, s.mem, MTVEC, 8);
    EcallFetched(p.rom, code[h.pc], s.pc);
    EcallMoves(p, s, handler);
  }

  lemma EcallFetched(rom: Rom, i: RvInst, pc: u64)
    requires i.op.Ecall? && Emitted(rom, i, pc)
    ensures FetchedAs(rom, pc, EcallInst(pc)) && pc + 4 < 0x1_0000_0000_0000_0000
  {
    hide FetchedAs, EcallInst;
    EmittedAt(rom, i, pc, EcallInst(pc));
  }

  /** The other way to end. If the program asks to exit by a system call, the emulator publishes its
      output and halts as well. */
  lemma ProgramExits(p: Platform, s: State, sections: seq<ElfSection>, entry: u64, code: Code, h: Hart, n: nat, w: seq<u64>)
    requires Ready(p, s, sections, entry, code) && h == StartHart(s, sections, entry)
    requires AsksToExit(code, h, n, EntryAddress(sections) + 0x38, w)
    ensures |w| == 32 && RvRun(code, h, n).Next?
    ensures PublishesAfterEcall(p, s, BootSteps(sections) + MicroCount(code, h, n), RvRun(code, h, n).hart, w)
  {
    hide Run, Related, BootAccessible, StartHart, CodeOf, AllOrdinary, Accessible, Exits, Halts, Published, Step,
      OutputWords, FetchesBios, RomFor, C.WellBuilt, MicroCount, BootSteps, RvRun, ExitsBy, Compiled;
    EntryRoom(p.rom, sections, entry);
    RomCompiled(p.rom, sections, entry, code);
    hide EntryAddress;
    ProgramReached(p, s, sections, entry, code, h, n);
    var done := BootSteps(sections) + MicroCount(code, h, n);
    EcallReaches(p, code, RvRun(code, h, n).hart, Run(p, s, done).value, EntryAddress(sections) + 0x38, w);
    LastStep(p, s, done + 1);
    BiosGoesOn(p, EntryAddress(sections), entry, 14);
    FinishesTrap(p, s, done + 1, EntryAddress(sections), entry, w);
  }

  /** After m steps the state matches hart h; one step more leads to the trap handler, and 167 more
      publish w and halt. */
  ghost predicate PublishesAfterEcall(p: Platform, s: State, m: nat, h: Hart, w: seq<u64>)
    requires |w| == 32
  {
    && Run(p, s, m).Some? && Related(h, Run(p, s, m).value) && Run(p, s, m + 1).Some?
    && Exits(p, Run(p, s, m + 1).value, 167, Published(w, 0), Run(p, s, m).value.mem)
    && Halts(p, s, m + 1 + 167)
  }

  /** At the trap handler, with the exit code in x17, the exit code does the rest. */
  lemma FinishesTrap(p: Platform, s: State, m: nat, base: u64, entry: u64, w: seq<u64>)
    requires base + 0x40 < 0x1_0000_0000 && FetchesBios(p.rom, base, entry) && C.WellBuilt(p.rom)
    requires !s.end && Run(p, s, m).Some? && Run(p, s, m).value.pc == base + 0x38 && !EndFetched(p, base + 0x38)
    requires Run(p, s, m).value.regs[17] == CAUSE_EXIT
    requires |w| == 32 && OutputWords(Run(p, s, m).value.mem, w)
    ensures Exits(p, Run(p, s, m).value, 167, Published(w, 0), Run(p, s, m).value.mem) && Halts(p, s, m + 167)
  {
    hide Run, Exits, Halts, Published, OutputWords, FetchesBios, C.WellBuilt, EndFetched;
    NotEnded(p, s, m, m);
    TrapExits(p, Run(p, s, m).value, base, entry, w);
    HaltsLater(p, s, m, 167);
  }

  // ---- the code of a file ----

  lemma StandsInside(s: ElfSection, i: RvInst, pc: int)
    requires StandsAt(s, i, pc)
    ensures s.addr <= pc < s.addr + |s.Data()|
  {
    hide Instructions;
    InstructionsCount(s.Code());
  }

  /** No address holds two instructions. */
  lemma StandsOnce(sections: seq<ElfSection>, j: nat, i: RvInst, j': nat, i': RvInst, pc: int)
    requires Regular(sections) && j <= j' < |sections| && StandsAt(sections[j], i, pc) && StandsAt(sections[j'], i', pc)
    ensures i == i'
  {
    hide Instructions, EntryAddress, CodePlace, CodeInScope;
    StandsInside(sections[j], i, pc);
    StandsInside(sections[j'], i', pc);
  }

  ghost predicate Occupied(sections: seq<ElfSection>, pc: int) {
    exists j, i :: 0 <= j < |sections| && StandsAt(sections[j], i, pc)
  }

  ghost function InstHere(sections: seq<ElfSection>, pc: int): RvInst
    requires Occupied(sections, pc)
  {
    var j, i :| 0 <= j < |sections| && StandsAt(sections[j], i, pc);
    i
  }

  /** The instructions of all code sections, by address. */
  ghost function ProgramCode(sections: seq<ElfSection>): Code {
    map pc: u64 | ROM_ADDR <= pc < ROM_ADDR_MAX && Occupied(sections, pc) :: InstHere(sections, pc)
  }

  /** Every file the model covers has a code map. */
  lemma ProgramCodeIs(sections: seq<ElfSection>)
    requires Regular(sections)
    ensures CodeOf(ProgramCode(sections), sections)
  {
    hide StandsAt, EntryAddress, CodeInScope;
    var code := ProgramCode(sections);
    forall pc: u64, i, j | 0 <= j < |sections| && StandsAt(sections[j], i, pc)
      ensures pc in code && code[pc] == i
    {
      StandsPlaced(sections, j, i, pc);
      assert Occupied(sections, pc);
      var j', i' :| 0 <= j' < |sections| && StandsAt(sections[j'], i', pc) && i' == InstHere(sections, pc);
      if j <= j' {
        StandsOnce(sections, j, i, j', i', pc);
      } else {
        StandsOnce(sections, j', i', j, i, pc);
      }
    }
  }

  lemma StandsPlaced(sections: seq<ElfSection>, j: nat, i: RvInst, pc: int)
    requires Regular(sections) && j < |sections| && StandsAt(sections[j], i, pc)
    ensures ROM_ADDR <= pc < ROM_ADDR_MAX
  {
    StandsInside(sections[j], i, pc);
    hide Instructions, EntryAddress, CodeInScope;
    assert sections[j].IsCode() && CodePlace(sections[j]);
  }

  // ---- the memory a run starts from ----

  lemma RamAccessible(m: Memory, item: Piece)
    requires m.writeSection == E.RamSection() && item.start % 8 == 0
    requires RAM_ADDR <= item.start && item.start + |item.bytes| <= RAM_ADDR + RAM_SIZE
    ensures ItemAccessible(m, item)
  {
    forall k | 0 <= k < WordsOf(|item.bytes|)
      ensures WordAccessible(m, item.start, k)
    {
      RamWord(m, item.start + 8 * k);
    }
  }

  lemma RamWord(m: Memory, a: int)
    requires m.writeSection == E.RamSection() && a % 8 == 0 && RAM_ADDR <= a < RAM_ADDR + RAM_SIZE
    ensures Accessible(m, a, 8)
  {
    AlignedUp(a + 1, RAM_ADDR + RAM_SIZE);
  }

  lemma RoAccessible(roData: seq<Piece>, input: seq<u8>, j: nat)
    requires E.Loadable(roData, input) && j < |roData|
    ensures ItemAccessible(E.InitialMemory(roData, input), roData[j])
  {
    hide E.InitialMemory, Accessible;
    forall k | 0 <= k < WordsOf(|roData[j].bytes|)
      ensures WordAccessible(E.InitialMemory(roData, input), roData[j].start, k)
    {
      E.WordAvailable(roData, input, j, roData[j].start + 8 * k);
    }
  }

  /** Initialised RAM starts at multiples of 8. */
  predicate RamAligned(sections: seq<ElfSection>) {
    forall j :: 0 <= j < |sections| && sections[j].IsRam() ==> sections[j].addr % 8 == 0
  }

  predicate RamItem(item: Piece) {
    item.start % 8 == 0 && RAM_ADDR <= item.start && item.start + |item.bytes| <= RAM_ADDR + RAM_SIZE
  }

  lemma {:induction false} RamItemsAligned(sections: seq<ElfSection>)
    requires RamAligned(sections)
    ensures forall j :: 0 <= j < |RamItems(sections)| ==> RamItem(RamItems(sections)[j])
  {
    if sections != [] {
      RamItemsAligned(sections[..|sections| - 1]);
    }
  }

  /** The memory that the emulator starts with has room for everything start-up stores. */
  lemma InitialReady(sections: seq<ElfSection>, input: seq<u8>)
    requires E.Loadable(RoItems(sections), input) && RamAligned(sections)
    ensures BootAccessible(E.InitialMemory(RoItems(sections), input), sections)
    ensures Accessible(E.InitialMemory(RoItems(sections), input), TEMP_ADDR, 8)
  {
    var ro, ram, items := RoItems(sections), RamItems(sections), Items(sections);
    var m := E.InitialMemory(ro, input);
    RamItemsAligned(sections);
    hide E.InitialSections, ItemAccessible, RoItems, RamItems, RamAligned;
    forall j | 0 <= j < |items|
      ensures ItemAccessible(m, items[j])
    {
      if j < |ram| {
        RamAccessible(m, ram[j]);
      } else {
        RoAccessible(ro, input, j - |ram|);
      }
    }
  }
}
