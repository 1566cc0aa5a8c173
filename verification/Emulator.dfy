/** The emulator object: its steps update the machine state in place, as Machine specifies. */
module Emulator {
  import opened Words
  import opened Wrappers
  import opened MemoryModel
  import opened MemoryLemmas
  import opened MemObject
  import opened ZiskInst
  import opened ZiskOps
  import M = Machine
  import opened RecordReplay
  import opened Traces
  import Chunks
  import ChunkReplay

  class Emu {
    const p: M.Platform
    const mem: Mem
    const regs: array<u64>
    var a: u64
    var b: u64
    var c: u64
    var flag: bool
    var sp: u64
    var pc: u64
    var step: nat
    var end: bool
    var mode: M.EmulationMode
    var inputData: seq<u64>
    var fcall: M.FcallContext

    ghost predicate Valid()
      reads this, mem, regs
    {
      mem.Valid() && regs.Length == 32
    }

    /** The emulator as a machine state. */
    ghost function S(): M.State
      reads this, mem, regs
      requires Valid()
    {
      M.State(a, b, c, flag, sp, pc, step, end, regs[..], mem.View(), mode, inputData, fcall)
    }

    /** A fresh context: everything zero, at the first BIOS instruction. */
    constructor (p: M.Platform, mem: Mem)
      requires mem.Valid()
      ensures Valid() && fresh(regs) && this.p == p && this.mem == mem
      ensures S() == InitialState(mem.View()) && step == 0 && !end
    {
      this.p := p;
      this.mem := mem;
      regs := new u64[32](_ => 0);
      a, b, c, flag, sp, pc, step, end := 0, 0, 0, false, 0, ROM_ENTRY, 0, false;
      mode := M.MemMode;
      inputData := [];
      fcall := NoFcalls();
      new;
      assert regs[..] == seq(32, _ => 0);
    }

    // ---- operands ----

    method SourceA(i: Inst) returns (r: Outcome)
      requires Valid()
      modifies this`a
      ensures M.SourceA(old(S()), i) == if r.Done? then Some(S()) else None
    {
      hide Read, M.Imm;
      match i.aSrc {
        case SrcC => a := c;
        case SrcReg =>
          if i.aOffsetImm0 >= 32 { return Panic; }
          a := regs[i.aOffsetImm0];
        case SrcMem =>
          var address := i.aOffsetImm0;
          if i.aUseSpImm1 != 0 { address := Wrap(address + sp); }
          var value := mem.Read(address, 8);
          if value.None? { return Panic; }
          a := value.value;
        case SrcImm => a := M.Imm(i.aOffsetImm0, i.aUseSpImm1);
        case SrcStep => a := Wrap(step);
        case SrcInd => return Panic;
      }
      return Done;
    }

    method SourceB(i: Inst) returns (r: Outcome)
      requires Valid()
      modifies this`b
      ensures M.SourceB(old(S()), i) == if r.Done? then Some(S()) else None
    {
      hide Read, M.Imm;
      match i.bSrc {
        case SrcC => b := c;
        case SrcReg =>
          if i.bOffsetImm0 >= 32 { return Panic; }
          b := regs[i.bOffsetImm0];
        case SrcMem =>
          var addr := i.bOffsetImm0;
          if i.bUseSpImm1 != 0 { addr := Wrap(addr + sp); }
          var value := mem.Read(addr, 8);
          if value.None? { return Panic; }
          b := value.value;
        case SrcImm => b := M.Imm(i.bOffsetImm0, i.bUseSpImm1);
        case SrcInd =>
          var addr := Wrap(a + i.bOffsetImm0);
          if i.bUseSpImm1 != 0 { addr := Wrap(addr + sp); }
          var value := mem.Read(addr, i.indWidth);
          if value.None? { return Panic; }
          b := value.value;
        case SrcStep => return Panic;
      }
      return Done;
    }

    /** Reads an operand from memory and returns the words to log for it. */
    method ReadLogged(address: u64, width: nat) returns (r: Option<(u64, seq<u64>)>)
      requires Valid()
      ensures r == M.LogRead(mem.View(), address, width)
    {
      if address % 4 == 0 && width == 8 {
        var value := mem.Read(address, width);
        if value.None? { return None; }
        return Some((value.value, [value.value]));
      }
      r := mem.ReadRequired(address, width);
    }

    method SourceAMemReadsGenerate(i: Inst, memReads: seq<u64>) returns (r: Option<seq<u64>>)
      requires Valid()
      modifies this`a
      ensures M.SourceAGenerate(old(S()), i).Some? == r.Some?
      ensures r.Some? ==> M.SourceAGenerate(old(S()), i).value.0 == S()
      ensures r.Some? ==> r.value == memReads + M.SourceAGenerate(old(S()), i).value.1
    {
      hide Read, M.Imm, M.LogRead;
      r := Some(memReads);
      match i.aSrc {
        case SrcC => a := c;
        case SrcReg =>
          if i.aOffsetImm0 >= 32 { return None; }
          a := regs[i.aOffsetImm0];
        case SrcMem =>
          var address := i.aOffsetImm0;
          if i.aUseSpImm1 != 0 { address := Wrap(address + sp); }
          var logged := ReadLogged(address, 8);
          if logged.None? { return None; }
          a := logged.value.0;
          r := Some(memReads + logged.value.1);
        case SrcImm => a := M.Imm(i.aOffsetImm0, i.aUseSpImm1);
        case SrcStep => a := Wrap(step);
        case SrcInd => return None;
      }
    }

    method SourceBMemReadsGenerate(i: Inst, memReads: seq<u64>) returns (r: Option<seq<u64>>)
      requires Valid()
      modifies this`b
      ensures M.SourceBGenerate(old(S()), i).Some? == r.Some?
      ensures r.Some? ==> M.SourceBGenerate(old(S()), i).value.0 == S()
      ensures r.Some? ==> r.value == memReads + M.SourceBGenerate(old(S()), i).value.1
    {
      hide Read, M.Imm, M.LogRead;
      r := Some(memReads);
      match i.bSrc {
        case SrcC => b := c;
        case SrcReg =>
          if i.bOffsetImm0 >= 32 { return None; }
          b := regs[i.bOffsetImm0];
        case SrcMem =>
          var address := i.bOffsetImm0;
          if i.bUseSpImm1 != 0 { address := Wrap(address + sp); }
          var logged := ReadLogged(address, 8);
          if logged.None? { return None; }
          b := logged.value.0;
          r := Some(memReads + logged.value.1);
        case SrcImm => b := M.Imm(i.bOffsetImm0, i.bUseSpImm1);
        case SrcInd =>
          var address := Wrap(a + i.bOffsetImm0);
          if i.bUseSpImm1 != 0 { address := Wrap(address + sp); }
          var logged := ReadLogged(address, i.indWidth);
          if logged.None? { return None; }
          b := logged.value.0;
          r := Some(memReads + logged.value.1);
        case SrcStep => return None;
      }
    }

    /** Takes an operand from the recorded words; two words are always there for 8 bytes. */
    method ConsumeOperand(memReads: seq<u64>, index: nat, address: u64, width: nat) returns (r: Option<(u64, nat)>)
      ensures r == M.ConsumeRead(memReads, index, address, width)
      ensures r.Some? ==> r.value.1 <= |memReads|
    {
      if address % 4 == 0 && width == 8 {
        if index >= |memReads| { return None; }
        return Some((memReads[index], index + 1));
      }
      var (required1, required2) := RequiredAddresses(address, width);
      if index >= |memReads| { return None; }
      var raw1 := memReads[index];
      if required1 == required2 {
        var value := SingleNotAligned(address, width, raw1);
        if value.None? { return None; }
        return Some((value.value, index + 1));
      }
      if index + 1 >= |memReads| { return None; }
      var raw2 := memReads[index + 1];
      var value := DoubleNotAligned(address, width, raw1, raw2);
      if value.None? { return None; }
      return Some((value.value, index + 2));
    }

    method SourceAMemReadsConsume(i: Inst, memReads: seq<u64>, index: nat) returns (r: Option<nat>)
      requires Valid() && index <= |memReads|
      modifies this`a
      ensures r.Some? ==> r.value <= |memReads|
      ensures M.SourceAConsume(old(S()), i, memReads, index) == if r.Some? then Some((S(), r.value)) else None
    {
      hide M.ConsumeRead, M.Imm;
      r := Some(index);
      match i.aSrc {
        case SrcC => a := c;
        case SrcReg =>
          if i.aOffsetImm0 >= 32 { return None; }
          a := regs[i.aOffsetImm0];
        case SrcMem =>
          var address := i.aOffsetImm0;
          if i.aUseSpImm1 != 0 { address := Wrap(address + sp); }
          var operand := ConsumeOperand(memReads, index, address, 8);
          if operand.None? { return None; }
          a := operand.value.0;
          r := Some(operand.value.1);
        case SrcImm => a := M.Imm(i.aOffsetImm0, i.aUseSpImm1);
        case SrcStep => a := Wrap(step);
        case SrcInd => return None;
      }
    }

    method SourceBMemReadsConsume(i: Inst, memReads: seq<u64>, index: nat) returns (r: Option<nat>)
      requires Valid() && index <= |memReads|
      modifies this`b
      ensures r.Some? ==> r.value <= |memReads|
      ensures M.SourceBConsume(old(S()), i, memReads, index) == if r.Some? then Some((S(), r.value)) else None
    {
      hide M.ConsumeRead, M.Imm;
      r := Some(index);
      match i.bSrc {
        case SrcC => b := c;
        case SrcReg =>
          if i.bOffsetImm0 >= 32 { return None; }
          b := regs[i.bOffsetImm0];
        case SrcMem =>
          var address := i.bOffsetImm0;
          if i.bUseSpImm1 != 0 { address := Wrap(address + sp); }
          var operand := ConsumeOperand(memReads, index, address, 8);
          if operand.None? { return None; }
          b := operand.value.0;
          r := Some(operand.value.1);
        case SrcImm => b := M.Imm(i.bOffsetImm0, i.bUseSpImm1);
        case SrcInd =>
          var address := Wrap(a + i.bOffsetImm0);
          if i.bUseSpImm1 != 0 { address := Wrap(address + sp); }
          var operand := ConsumeOperand(memReads, index, address, i.indWidth);
          if operand.None? { return None; }
          b := operand.value.0;
          r := Some(operand.value.1);
        case SrcStep => return None;
      }
    }

    // ---- destination ----

    method SetReg(i: Inst) returns (r: Outcome)
      requires Valid()
      modifies regs
      ensures M.StoreReg(old(S()), i) == if r.Done? then Some(S()) else None
    {
      if i.storeOffset < 0 || i.storeOffset >= 32 { return Panic; }
      regs[i.storeOffset] := GetValueToStore(i);
      return Done;
    }

    function GetValueToStore(i: Inst): u64
      reads this
    {
      if i.storeRa then Wrap(pc + i.jmpOffset2) else c
    }

    /** The address a store to memory goes to. */
    function StoreAddress(i: Inst): u64
      reads this
    {
      var address := i.storeOffset;
      var withSp := if i.storeUseSp then address + sp else address;
      Wrap(if i.store.StoreInd? then withSp + a else withSp)
    }

    method StoreC(i: Inst) returns (r: Outcome)
      requires Valid()
      modifies regs, mem
      ensures Valid()
      ensures M.StoreC(old(S()), i) == if r.Done? then Some(S()) else None
    {
      hide Read, Write, ReadRequired;
      match i.store {
        case StoreNone => return Done;
        case StoreReg => r := SetReg(i);
        case StoreMem => r := mem.WriteSilent(StoreAddress(i), GetValueToStore(i), 8);
        case StoreInd => r := mem.WriteSilent(StoreAddress(i), GetValueToStore(i), i.indWidth);
      }
    }

    /** A store that logs the old words first when it is not aligned. */
    method WriteLogged(address: u64, value: u64, width: nat, memReads: seq<u64>) returns (r: Option<seq<u64>>)
      requires Valid()
      modifies this`b, mem
      ensures Valid()
      ensures var full := FullAligned(address, width);
              var old_ := if full then Some((old(b), [])) else ReadRequired(old(mem.View()), address, width);
              var written := Write(old(mem.View()), address, value, width);
              if old_.Some? && written.Some? then
                r == Some(memReads + old_.value.1) && S() == old(S()).(b := old_.value.0, mem := written.value)
              else r.None?
    {
      hide Read, Write, ReadRequired;
      var words := memReads;
      if !(address % 4 == 0 && width == 8) {
        var required := mem.ReadRequired(address, width);
        if required.None? { return None; }
        b := required.value.0;
        words := memReads + required.value.1;
      }
      var w := mem.WriteSilent(address, value, width);
      if w.Panic? { return None; }
      assert memReads + [] == memReads;
      return Some(words);
    }

    method StoreCMemReadsGenerate(i: Inst, memReads: seq<u64>) returns (r: Option<seq<u64>>)
      requires Valid()
      modifies this`b, regs, mem
      ensures Valid()
      ensures M.StoreCGenerate(old(S()), i).Some? == r.Some?
      ensures r.Some? ==> M.StoreCGenerate(old(S()), i).value.0 == S()
      ensures r.Some? ==> r.value == memReads + M.StoreCGenerate(old(S()), i).value.1
    {
      hide Read, Write, ReadRequired;
      match i.store {
        case StoreNone =>
          assert memReads + [] == memReads;
          r := Some(memReads);
        case StoreReg =>
          assert memReads + [] == memReads;
          var w := SetReg(i);
          r := if w.Done? then Some(memReads) else None;
        case StoreMem => r := WriteLogged(StoreAddress(i), GetValueToStore(i), 8, memReads);
        case StoreInd => r := WriteLogged(StoreAddress(i), GetValueToStore(i), i.indWidth, memReads);
      }
    }

    /** Skips the words that an unaligned store logged. */
    method SkipLogged(address: u64, width: nat, memReads: seq<u64>, index: nat) returns (r: Option<nat>)
      requires index <= |memReads|
      ensures r == if index + M.SkippedWords(address, width) > |memReads| then None
                   else Some(index + M.SkippedWords(address, width))
    {
      if address % 4 == 0 && width == 8 { return Some(index); }
      var (required1, required2) := RequiredAddresses(address, width);
      if index >= |memReads| { return None; }
      if required1 == required2 { return Some(index + 1); }
      if index + 1 >= |memReads| { return None; }
      return Some(index + 2);
    }

    method StoreCMemReadsConsume(i: Inst, memReads: seq<u64>, index: nat) returns (r: Option<nat>)
      requires Valid() && index <= |memReads|
      modifies regs
      ensures r.Some? ==> r.value <= |memReads|
      ensures M.StoreCConsume(old(S()), i, memReads, index) == if r.Some? then Some((S(), r.value)) else None
    {
      hide M.SkippedWords;
      match i.store {
        case StoreNone => return Some(index);
        case StoreReg =>
          var w := SetReg(i);
          r := if w.Done? then Some(index) else None;
        case StoreMem => r := SkipLogged(StoreAddress(i), 8, memReads, index);
        case StoreInd => r := SkipLogged(StoreAddress(i), i.indWidth, memReads, index);
      }
    }

    method SetPc(i: Inst)
      modifies this`pc
      requires Valid()
      ensures S() == old(S()).(pc := M.NextPc(old(S()), i))
    {
      if i.setPc {
        pc := Wrap(c + i.jmpOffset1);
      } else if flag {
        pc := Wrap(pc + i.jmpOffset1);
      } else {
        pc := Wrap(pc + i.jmpOffset2);
      }
    }
  
    // ---- operations ----

    /** Reads n consecutive words. */
    method LoadWords(address: int, n: nat) returns (r: Option<seq<u64>>)
      requires Valid()
      ensures r == M.ReadWords(mem.View(), address, n)
    {
      hide Read;
      var data := [];
      var k := 0;
      while k < n
        invariant 0 <= k <= n && M.ReadWords(mem.View(), address, k) == Some(data)
      {
        var w := mem.Read(Wrap(address + 8 * k), 8);
        if w.None? {
          ReadWordsStops(mem.View(), address, k + 1, n);
          return None;
        }
        data := data + [w.value];
        k := k + 1;
      }
      return Some(data);
    }

    /** Reads the data of a precompile: pointers first, then what they point to. */
    method LoadData(op: Op) returns (r: Option<seq<u64>>)
      requires Valid()
      ensures r == M.LoadData(mem.View(), op, b)
    {
      hide M.ReadWords;
      var (indirections, loads, chunk) := M.Shape(op);
      var pointers := LoadWords(b, indirections);
      if pointers.None? { return None; }
      var data := [];
      var i := 0;
      while i < loads
        invariant 0 <= i <= loads && M.ReadParameters(mem.View(), op, b, pointers.value, i) == Some(data)
      {
        var address := if indirections == 0 then b + i * chunk else pointers.value[i];
        var words := LoadWords(address, chunk);
        if words.None? {
          ReadParametersStops(mem.View(), op, b, pointers.value, i + 1, loads);
          return None;
        }
        data := data + words.value;
        i := i + 1;
      }
      return Some(pointers.value + data);
    }

    /** The input of a precompile, from memory or from the replay context. */
    method PrecompiledLoadData(op: Op) returns (r: Option<seq<u64>>)
      requires Valid()
      modifies this`inputData
      ensures M.PrecompileInput(op, old(S())) == r
      ensures inputData == if r.Some? && mode.GenerateMemReads? then r.value else old(inputData)
    {
      hide M.LoadData;
      if b % 8 != 0 { return None; }
      if mode.ConsumeMemReads? {
        if |inputData| != M.InputWords(op) { return None; }
        return Some(inputData);
      }
      r := LoadData(op);
      if r.Some? && mode.GenerateMemReads? {
        inputData := r.value;
      }
    }

    /** Writes consecutive words. */
    method StoreWords(address: u64, words: seq<u64>) returns (r: Outcome)
      requires Valid()
      modifies mem
      ensures Valid()
      ensures M.WriteWords(old(mem.View()), address, words) == if r.Done? then Some(mem.View()) else None
    {
      hide Write;
      ghost var before := mem.View();
      var k := 0;
      while k < |words|
        invariant 0 <= k <= |words| && Valid()
        invariant M.WriteWords(before, address, words[..k]) == Some(mem.View())
      {
        assert words[..k + 1][..k] == words[..k];
        var w := mem.WriteSilent(Wrap(address + 8 * k), words[k], 8);
        if w.Panic? {
          WriteWordsStops(before, address, words, k + 1);
          return Panic;
        }
        k := k + 1;
      }
      assert words[..k] == words;
      return Done;
    }

    /** Writes the results of a precompile to each of its destinations. */
    method StoreOutputs(op: Op, data: seq<u64>, outs: seq<(u64, nat, nat)>) returns (r: Outcome)
      requires Valid()
      modifies mem
      ensures Valid()
      ensures M.WriteOutputs(p.prims, op, data, old(mem.View()), outs) == if r.Done? then Some(mem.View()) else None
    {
      hide M.WriteWords, M.ResultWords, RawMemory.Valid;
      ghost var before := mem.View();
      var k := 0;
      while k < |outs|
        invariant 0 <= k <= |outs| && Valid()
        invariant M.WriteOutputs(p.prims, op, data, before, outs[..k]) == Some(mem.View())
      {
        assert outs[..k + 1][..k] == outs[..k];
        var (address, from, n) := outs[k];
        var w := StoreWords(address, M.ResultWords(p.prims, op, data, from, n));
        if w.Panic? {
          WriteOutputsStops(p.prims, op, data, before, outs, k + 1);
          return Panic;
        }
        k := k + 1;
      }
      assert outs[..k] == outs;
      return Done;
    }

    /** keccak, sha256, arith256, arith256_mod, secp256k1_add and secp256k1_dbl. */
    method OpcPrecompile(op: Op) returns (r: Outcome)
      requires Valid()
      modifies this`inputData, this`c, this`flag, mem
      ensures Valid()
      ensures M.Precompile(p.prims, op, old(S())) == if r.Done? then Some(S()) else None
    {
      hide M.Precompile, M.PrecompileInput, M.WriteOutputs, M.Outputs, M.InputWords, RawMemory.Valid;
      ghost var s := S();
      PrecompileParts(p.prims, op, s);
      var input := PrecompiledLoadData(op);
      if input.None? { return Panic; }
      var data := input.value;
      assert mem.View() == s.mem;
      var w := StoreOutputs(op, data, M.Outputs(op, b, data));
      if w.Panic? { return Panic; }
      c, flag := 0, false;
      return Done;
    }

    method OpcFcallParam() returns (r: Outcome)
      requires Valid()
      modifies this`c, this`flag, this`fcall
      ensures M.OpcFcallParam(old(S())) == if r.Done? then Some(S()) else None
    {
      hide M.ReadWords;
      c, flag := b, false;
      if mode.ConsumeMemReads? { return Done; }
      var words := a;
      if fcall.parametersSize + words >= 32 { return Panic; }
      if words == 1 {
        fcall := fcall.(parameters := fcall.parameters[fcall.parametersSize := b],
                        parametersSize := fcall.parametersSize + 1);
      } else {
        var values := LoadWords(b, words);
        if values.None? { return Panic; }
        var size := fcall.parametersSize;
        fcall := fcall.(parameters := fcall.parameters[..size] + values.value + fcall.parameters[size + words..],
                        parametersSize := size + words);
      }
      return Done;
    }

    method OpcFcall() returns (r: Outcome)
      requires Valid()
      modifies this`c, this`flag, this`fcall, mem`freeInput
      ensures Valid()
      ensures M.OpcFcall(p.prims, old(S())) == if r.Done? then Some(S()) else None
    {
      c, flag := b, false;
      if mode.ConsumeMemReads? { return Done; }
      var size := p.prims.fcallSize(a, fcall.parameters);
      if size < 0 { return Panic; }
      var results: M.Words32 := M.FcallResults(p.prims, a, fcall);
      mem.freeInput := if size > 0 then results[0] else 0;
      fcall := fcall.(results := results, resultGot := 1, resultSize := size, parametersSize := 0);
      return Done;
    }

    method OpcFcallGet() returns (r: Outcome)
      requires Valid()
      modifies this`c, this`flag, this`fcall, mem`freeInput
      ensures Valid()
      ensures M.OpcFcallGet(old(S())) == if r.Done? then Some(S()) else None
    {
      c, flag := b, false;
      if mode.ConsumeMemReads? { return Done; }
      if fcall.resultSize == 0 { return Panic; }
      if fcall.resultSize > 32 { return Panic; }
      if fcall.resultGot > fcall.resultSize { return Panic; }
      if fcall.resultGot >= fcall.resultSize {
        mem.freeInput := 0;
      } else {
        if fcall.resultGot < 0 { return Panic; }
        mem.freeInput := fcall.results[fcall.resultGot];
      }
      fcall := fcall.(resultGot := fcall.resultGot + 1);
      return Done;
    }

    /** Calls the function of an instruction. */
    method Call(op: Op) returns (r: Outcome)
      requires Valid()
      modifies this`c, this`flag, this`inputData, this`fcall, mem
      ensures Valid()
      ensures M.Call(p.prims, op, old(S())) == if r.Done? then Some(S()) else None
    {
      hide Alu, M.Precompile, M.OpcFcallParam, M.OpcFcall, M.OpcFcallGet;
      if IsAlu(op) {
        var (c', flag') := Alu(op, a, b);
        c, flag := c', flag';
        return Done;
      }
      if op.InputSize() > 0 {
        r := OpcPrecompile(op);
        return;
      }
      match op {
        case FcallParam => r := OpcFcallParam();
        case Fcall => r := OpcFcall();
        case FcallGet => r := OpcFcallGet();
        case _ => return Done;
      }
    }

    // ---- steps ----

    /** One step without recording; step_fast has the same body. */
    method ParStep() returns (r: Outcome)
      requires Valid()
      modifies this, mem, regs
      ensures Valid()
      ensures M.Step(p, old(S())) == if r.Done? then Some(S()) else None
      ensures r.Done? ==> step == old(step) + 1
    {
      hide M.SourceA, M.SourceB, M.Call, M.StoreC, M.GetInstruction;
      var instruction := M.GetInstruction(p.rom, pc);
      if instruction.None? { return Panic; }
      var i := instruction.value;
      :- SourceA(i);
      :- SourceB(i);
      :- Call(i.op);
      :- StoreC(i);
      SetPc(i);
      end := i.end;
      step := step + 1;
      return Done;
    }

    /** One step that appends the memory words it depends on to the trace. */
    method ParStepMyBlock(trace: EmuTrace) returns (r: Option<EmuTrace>)
      requires Valid()
      modifies this, mem, regs
      ensures Valid()
      ensures M.StepGenerate(p, old(S())).Some? == r.Some?
      ensures r.Some? ==> S() == M.StepGenerate(p, old(S())).value.0
      ensures r.Some? ==> r.value == Extend(trace, S(), M.StepGenerate(p, old(S())).value.1)
      ensures r.Some? ==> step == old(step) + 1
    {
      hide M.SourceAGenerate, M.SourceBGenerate, M.Call, M.StoreCGenerate, M.GetInstruction;
      var instruction := M.GetInstruction(p.rom, pc);
      if instruction.None? { return None; }
      var i := instruction.value;
      ghost var s := S();
      var reads1 := SourceAMemReadsGenerate(i, trace.memReads);
      if reads1.None? { return None; }
      ghost var ws1, s1 := M.SourceAGenerate(s, i).value.1, S();
      var reads2 := SourceBMemReadsGenerate(i, reads1.value);
      if reads2.None? { return None; }
      ghost var ws2, s2 := M.SourceBGenerate(s1, i).value.1, S();
      var reads3 := CallLogged(i.op, reads2.value);
      if reads3.None? { return None; }
      ghost var ws3, s3 := M.CallGenerate(p.prims, i.op, s2).value.1, S();
      hide M.CallGenerate;
      var reads4 := StoreCMemReadsGenerate(i, reads3.value);
      if reads4.None? { return None; }
      ghost var ws4 := M.StoreCGenerate(s3, i).value.1;
      assert reads4.value == trace.memReads + (ws1 + (ws2 + (ws3 + ws4)));
      SetPc(i);
      end := i.end;
      step := step + 1;
      return Some(trace.(memReads := reads4.value, lastC := c, end := end, steps := trace.steps + 1));
    }

    /** Calls the function of an instruction; the input of a precompile is moved to the trace. */
    method CallLogged(op: Op, memReads: seq<u64>) returns (r: Option<seq<u64>>)
      requires Valid()
      modifies this`c, this`flag, this`inputData, this`fcall, mem
      ensures Valid()
      ensures M.CallGenerate(p.prims, op, old(S())).Some? == r.Some?
      ensures r.Some? ==> M.CallGenerate(p.prims, op, old(S())).value.0 == S()
      ensures r.Some? ==> r.value == memReads + M.CallGenerate(p.prims, op, old(S())).value.1
    {
      hide M.Call;
      var words := memReads;
      if op.InputSize() > 0 {
        inputData := [];
      }
      var called := Call(op);
      if called.Panic? { return None; }
      if op.InputSize() > 0 {
        words := memReads + inputData;
        inputData := [];
      }
      assert memReads + [] == memReads;
      return Some(words);
    }

    /** One step that takes its memory operands from the recorded words. */
    method StepEmuTrace(memReads: seq<u64>, index: nat) returns (r: Option<nat>)
      requires Valid() && index <= |memReads|
      modifies this, mem, regs
      ensures Valid()
      ensures r.Some? ==> r.value <= |memReads|
      ensures M.StepConsume(p, old(S()), memReads, index) == if r.Some? then Some((S(), r.value)) else None
      ensures r.Some? ==> step == old(step) + 1 && M.GetInstruction(p.rom, old(pc)).Some?
    {
      hide M.SourceAConsume, M.SourceBConsume, M.CallConsume, M.StoreCConsume, M.GetInstruction;
      var instruction := M.GetInstruction(p.rom, pc);
      if instruction.None? { return None; }
      var i := instruction.value;
      var index1 := SourceAMemReadsConsume(i, memReads, index);
      if index1.None? { return None; }
      var index2 := SourceBMemReadsConsume(i, memReads, index1.value);
      if index2.None? { return None; }
      var index3 := CallFromLog(i.op, memReads, index2.value);
      if index3.None? { return None; }
      var index4 := StoreCMemReadsConsume(i, memReads, index3.value);
      if index4.None? { return None; }
      SetPc(i);
      end := i.end;
      step := step + 1;
      return index4;
    }

    /** Takes the given number of input words from the trace. */
    method LoadFromLog(count: nat, memReads: seq<u64>, index: nat) returns (r: Option<nat>)
      requires Valid() && index <= |memReads|
      modifies this`inputData
      ensures Valid() && (r.Some? <==> index + count <= |memReads|)
      ensures r.Some? ==> r.value == index + count && S() == old(S()).(inputData := memReads[index..index + count])
    {
      inputData := [];
      var next := index;
      while next < index + count
        modifies this`inputData
        invariant index <= next <= index + count && next <= |memReads|
        invariant inputData == memReads[index..next]
      {
        if next >= |memReads| { return None; }
        inputData := inputData + [memReads[next]];
        next := next + 1;
      }
      return Some(next);
    }

    /** Calls the function of an instruction; the input of a precompile comes from the trace. */
    method CallFromLog(op: Op, memReads: seq<u64>, index: nat) returns (r: Option<nat>)
      requires Valid() && index <= |memReads|
      modifies this`c, this`flag, this`inputData, this`fcall, mem
      ensures Valid()
      ensures r.Some? ==> r.value <= |memReads|
      ensures M.CallConsume(p.prims, op, old(S()), memReads, index) == if r.Some? then Some((S(), r.value)) else None
    {
      hide M.Call;
      r := Some(index);
      if op.InputSize() > 0 {
        r := LoadFromLog((op.InputSize() + 7) / 8, memReads, index);
        if r.None? { return; }
      }
      var called := Call(op);
      if called.Panic? { return None; }
    }

    // ---- runs ----

    /** The state a recording run starts from. */
    ghost function Recording(): M.State
      reads this, mem, regs
      requires Valid()
    {
      S().(mode := M.GenerateMemReads)
    }

    /** Records one step of the thread's own block in the last trace, which is new at a boundary. */
    method RecordStep(ghost s: M.State, numSteps: nat, ghost threads: nat, ghost thread: nat, traces: seq<EmuTrace>)
      returns (r: Option<seq<EmuTrace>>)
      requires Valid() && Chunks.Follows(p, s, step, S()) && !end
      requires numSteps > 0 && thread < threads && Chunks.Mine(step, numSteps, threads, thread)
      requires Chunks.OwnChunks(p, s, numSteps, step, threads, thread, traces)
      modifies this, mem, regs
      ensures Valid()
      ensures r.None? ==> forall m: nat :: !Chunks.Halts(p, s, m)
      ensures r.Some? ==> step == old(step) + 1 && Chunks.Follows(p, s, step, S()) && Chunks.GoesOn(p, s, step)
      ensures r.Some? ==> Chunks.OwnChunks(p, s, numSteps, step, threads, thread, r.value)
    {
      hide M.Step, M.StepGenerate, Run, Chunks.OwnChunks, Chunks.Mine, Chunks.Follows, Chunks.Halts, Chunks.GoesOn,
        Extend, RawMemory.Valid;
      ghost var n, before := step, S();
      var opened_ := traces;
      if step % numSteps == 0 {
        opened_ := opened_ + [EmuTrace(EmuTraceStart(pc, sp, c, step, regs[..]), 0, 0, [], false)];
      }
      assert opened_ == Chunks.Opened(numSteps, n, traces, before);
      Chunks.FollowsOn(p, s, n, before);
      Chunks.CurrentBlock(p, s, numSteps, n, threads, thread, traces, before);
      var last := |opened_| - 1;
      var trace := ParStepMyBlock(opened_[last]);
      if trace.None? { return None; }
      Chunks.OwnStep(p, s, numSteps, n, threads, thread, traces, before, S(), M.StepGenerate(p, before).value.1);
      return Some(opened_[last := trace.value]);
    }

    /** Runs the whole program, recording the blocks of one thread of several. It panics when the
        program does not halt normally, and at an own step that reaches the limit. */
    method ParRun(threads: nat, thread: nat, numSteps: nat, maxSteps: nat) returns (r: Option<seq<EmuTrace>>)
      requires Valid() && step == 0 && !end && thread < threads
      modifies this, mem, regs
      ensures Valid()
      ensures numSteps == 0 ==> r.None?
      ensures numSteps > 0 ==>
                (r.Some? <==> exists n: nat :: Chunks.Completes(p, old(Recording()), n, numSteps, threads, thread, maxSteps))
      ensures r.Some? ==> end && Chunks.Halts(p, old(Recording()), step) && Chunks.Follows(p, old(Recording()), step, S())
      ensures r.Some? ==> Chunks.OwnChunks(p, old(Recording()), numSteps, step, threads, thread, r.value)
    {
      hide M.Step, M.StepGenerate, Run, Chunks.OwnChunks, Chunks.Mine, Chunks.Follows, Chunks.Halts, Chunks.GoesOn,
        RawMemory.Valid, Chunks.BelowLimit;
      ghost var s := Recording();
      mode := M.GenerateMemReads;
      if numSteps == 0 {
        return None;
      }
      Chunks.NoChunks(p, s, numSteps, threads, thread);
      Chunks.FollowsStart(p, s);
      Chunks.NoLimit(numSteps, threads, thread, maxSteps);
      var emuTraces := [];
      while !end
        invariant Valid() && Chunks.Follows(p, s, step, S())
        invariant Chunks.OwnChunks(p, s, numSteps, step, threads, thread, emuTraces)
        invariant Chunks.BelowLimit(step, numSteps, threads, thread, maxSteps)
        decreases maxSteps + threads * numSteps - step
      {
        Chunks.LimitNear(step, numSteps, threads, thread, maxSteps);
        ghost var n, before := step, S();
        var isMyBlock := Chunks.Mine(step, numSteps, threads, thread);
        Chunks.LimitOn(n, numSteps, threads, thread, maxSteps);
        if !isMyBlock {
          Chunks.FollowsOn(p, s, n, before);
          var stepped := ParStep();
          if stepped.Panic? { return None; }
          Chunks.OthersStep(p, s, numSteps, n, threads, thread, emuTraces);
        } else {
          var recorded := RecordStep(s, numSteps, threads, thread, emuTraces);
          if recorded.None? { return None; }
          emuTraces := recorded.value;
          if step >= maxSteps {
            Chunks.LimitReached(p, s, n, numSteps, threads, thread, maxSteps);
            return None;
          }
        }
      }
      Chunks.FollowsEnd(p, s, step, S());
      assert Chunks.Completes(p, s, step, numSteps, threads, thread, maxSteps);
      return Some(emuTraces);
    }

    /** Runs the whole program, recording every block. */
    method RunGenTrace(numSteps: nat, maxSteps: nat) returns (r: Option<seq<EmuTrace>>)
      requires Valid() && step == 0 && !end
      modifies this, mem, regs
      ensures Valid()
      ensures numSteps == 0 ==> r.None?
      ensures numSteps > 0 ==>
                (r.Some? <==> exists n: nat :: Chunks.Completes(p, old(Recording()), n, numSteps, 1, 0, maxSteps))
      ensures r.Some? ==> end && Chunks.Halts(p, old(Recording()), step) && Chunks.Follows(p, old(Recording()), step, S())
      ensures r.Some? ==> Chunks.OwnChunks(p, old(Recording()), numSteps, step, 1, 0, r.value)
    {
      hide M.Step, M.StepGenerate, Run, Chunks.OwnChunks, Chunks.Mine, Chunks.Follows, Chunks.Halts, Chunks.GoesOn,
        RawMemory.Valid, Chunks.BelowLimit;
      ghost var s := Recording();
      mode := M.GenerateMemReads;
      if numSteps == 0 {
        return None;
      }
      Chunks.NoChunks(p, s, numSteps, 1, 0);
      Chunks.FollowsStart(p, s);
      Chunks.NoLimit(numSteps, 1, 0, maxSteps);
      var emuTraces := [];
      while !end
        invariant Valid() && Chunks.Follows(p, s, step, S())
        invariant Chunks.OwnChunks(p, s, numSteps, step, 1, 0, emuTraces)
        invariant Chunks.BelowLimit(step, numSteps, 1, 0, maxSteps)
        decreases maxSteps + 1 * numSteps - step
      {
        Chunks.LimitNear(step, numSteps, 1, 0, maxSteps);
        ghost var n := step;
        Chunks.OneThread(n, numSteps);
        Chunks.LimitOn(n, numSteps, 1, 0, maxSteps);
        var recorded := RecordStep(s, numSteps, 1, 0, emuTraces);
        if recorded.None? { return None; }
        emuTraces := recorded.value;
        if step >= maxSteps {
          Chunks.LimitReached(p, s, n, numSteps, 1, 0, maxSteps);
          return None;
        }
      }
      Chunks.FollowsEnd(p, s, step, S());
      assert Chunks.Completes(p, s, step, numSteps, 1, 0, maxSteps);
      return Some(emuTraces);
    }

    // ---- replay ----

    /** Puts the emulator at the start of a trace, in replay mode. */
    method SetStartState(start: EmuTraceStart)
      requires Valid()
      modifies this`pc, this`sp, this`step, this`c, this`mode, regs
      ensures Valid() && S() == ChunkReplay.Loaded(old(S()), start)
    {
      pc, sp, step, c := start.pc, start.sp, start.step, start.c;
      forall k | 0 <= k < 32 {
        regs[k] := start.regs[k];
      }
      assert regs[..] == start.regs;
      mode := M.ConsumeMemReads;
    }

    /** Replays a trace for as many steps as it has. The result is the number of words consumed. */
    method ProcessEmuTrace(trace: EmuTrace) returns (r: Option<nat>)
      requires Valid()
      modifies this, mem, regs
      ensures Valid()
      ensures ChunkReplay.Consumed(Replay(p, ChunkReplay.Loaded(old(S()), trace.startState), trace.memReads, 0, trace.steps)) ==
              if r.Some? then Some((S(), r.value)) else None
    {
      hide M.StepConsume, RawMemory.Valid;
      ghost var start := ChunkReplay.Loaded(S(), trace.startState);
      SetStartState(trace.startState);
      var memReadsIndex := 0;
      for k := 0 to trace.steps
        invariant Valid() && memReadsIndex <= |trace.memReads|
        invariant ChunkReplay.Consumed(Replay(p, start, trace.memReads, 0, k)) == Some((S(), memReadsIndex))
      {
        var next := StepEmuTrace(trace.memReads, memReadsIndex);
        if next.None? {
          ChunkReplay.ReplayStops(p, start, trace.memReads, 0, k + 1, trace.steps);
          return None;
        }
        memReadsIndex := next.value;
      }
      return Some(memReadsIndex);
    }

    /** Replays one trace of several until its end flag or its number of steps. */
    method ProcessEmuTraces(vecTraces: seq<EmuTrace>, chunkId: nat) returns (r: Option<nat>)
      requires Valid() && (chunkId < |vecTraces| ==> vecTraces[chunkId].steps > 0)
      modifies this, mem, regs
      ensures Valid()
      ensures chunkId >= |vecTraces| ==> r.None?
      ensures chunkId < |vecTraces| ==>
                var t := vecTraces[chunkId];
                ChunkReplay.Consumed(ChunkReplay.UntilEnd(p, ChunkReplay.Loaded(old(S()), t.startState), t.memReads, t.steps)) ==
                if r.Some? then Some((S(), r.value)) else None
    {
      hide M.StepConsume, RawMemory.Valid;
      if chunkId >= |vecTraces| { return None; }
      var trace := vecTraces[chunkId];
      ghost var start := ChunkReplay.Loaded(S(), trace.startState);
      SetStartState(trace.startState);
      var currentStepIdx := 0;
      var memReadsIndex := 0;
      while true
        invariant Valid() && memReadsIndex <= |trace.memReads| && 0 <= currentStepIdx < trace.steps
        invariant ChunkReplay.Consumed(ChunkReplay.UntilEnd(p, start, trace.memReads, currentStepIdx)) == Some((S(), memReadsIndex))
        invariant currentStepIdx > 0 ==> !end
        decreases trace.steps - currentStepIdx
      {
        var next := StepEmuTrace(trace.memReads, memReadsIndex);
        if next.None? {
          ChunkReplay.UntilEndStops(p, start, trace.memReads, currentStepIdx + 1, trace.steps);
          return None;
        }
        memReadsIndex := next.value;
        if end {
          ChunkReplay.UntilEndStops(p, start, trace.memReads, currentStepIdx + 1, trace.steps);
          break;
        }
        currentStepIdx := currentStepIdx + 1;
        if currentStepIdx == trace.steps { break; }
      }
      return Some(memReadsIndex);
    }
  }

  /** A precompile fails when its input or its output does. */
  lemma PrecompileParts(prims: M.Prims, op: Op, s: M.State)
    ensures M.PrecompileInput(op, s).None? ==> M.Precompile(prims, op, s).None?
    ensures M.PrecompileInput(op, s).Some? ==>
              var data := M.PrecompileInput(op, s).value;
              M.Precompile(prims, op, s) ==
              match M.WriteOutputs(prims, op, data, s.mem, M.Outputs(op, s.b, data))
              case None => None
              case Some(m) => Some(s.(inputData := if s.mode.GenerateMemReads? then data else s.inputData,
                                      mem := m, c := 0, flag := false))
  {
    hide M.PrecompileInput, M.WriteOutputs, M.Outputs, M.InputWords;
  }

  lemma {:induction false} ReadWordsStops(m: Memory, addr: int, k: nat, n: nat)
    requires k <= n && M.ReadWords(m, addr, k).None?
    ensures M.ReadWords(m, addr, n).None?
    decreases n
  {
    if k < n {
      ReadWordsStops(m, addr, k, n - 1);
    }
  }

  lemma {:induction false} ReadParametersStops(m: Memory, op: Op, b: u64, pointers: seq<u64>, k: nat, n: nat)
    requires n <= M.Shape(op).1 && |pointers| == M.Shape(op).0
    requires k <= n && M.ReadParameters(m, op, b, pointers, k).None?
    ensures M.ReadParameters(m, op, b, pointers, n).None?
    decreases n
  {
    hide M.ReadWords, M.Shape;
    if k < n {
      ReadParametersStops(m, op, b, pointers, k, n - 1);
    }
  }

  lemma {:induction false} WriteWordsStops(m: Memory, addr: u64, ws: seq<u64>, k: nat)
    requires k <= |ws| && M.WriteWords(m, addr, ws[..k]).None?
    ensures M.WriteWords(m, addr, ws).None?
    decreases |ws|
  {
    if k < |ws| {
      assert ws[..|ws| - 1][..k] == ws[..k];
      WriteWordsStops(m, addr, ws[..|ws| - 1], k);
    } else {
      assert ws[..k] == ws;
    }
  }

  lemma {:induction false} WriteOutputsStops(prims: M.Prims, op: Op, data: seq<u64>, m: Memory, outs: seq<(u64, nat, nat)>, k: nat)
    requires k <= |outs| && M.WriteOutputs(prims, op, data, m, outs[..k]).None?
    ensures M.WriteOutputs(prims, op, data, m, outs).None?
    decreases |outs|
  {
    if k < |outs| {
      assert outs[..|outs| - 1][..k] == outs[..k];
      WriteOutputsStops(prims, op, data, m, outs[..|outs| - 1], k);
    } else {
      assert outs[..k] == outs;
    }
  }

  function NoFcalls(): M.FcallContext {
    M.FcallContext(seq(32, _ => 0), 0, seq(32, _ => 0), 0, 0)
  }

  function InitialState(m: Memory): M.State {
    M.State(0, 0, 0, false, 0, ROM_ENTRY, 0, false, seq(32, _ => 0), m, M.MemMode, [], NoFcalls())
  }
}
