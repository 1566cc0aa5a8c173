/**
 * One step of the machine, as functions on states, in its three variants: plain, recording the
 * memory words it depends on, and replaying from recorded words. None is a panic.
 */
module Machine {
  import opened Words
  import opened Wrappers
  import opened MemoryModel
  import opened ZiskInst
  import opened ZiskOps

  datatype EmulationMode = MemMode | GenerateMemReads | ConsumeMemReads

  type Words32 = s: seq<u64> | |s| == 32
    witness seq(32, _ => 0)

  datatype FcallContext = FcallContext(
    parameters: Words32, parametersSize: nat,
    results: Words32, resultSize: int, resultGot: int)

  datatype State = State(
    a: u64, b: u64, c: u64, flag: bool, sp: u64, pc: u64, step: nat, end: bool,
    regs: Words32, mem: Memory, mode: EmulationMode, inputData: seq<u64>, fcall: FcallContext)

  /** The hash, field and curve computations and the fcall proxy, which the model leaves open. */
  datatype Prims = Prims(
    word: (Op, seq<u64>, nat) -> u64,
    fcallSize: (u64, seq<u64>) -> int,
    fcallWord: (u64, seq<u64>, seq<u64>, nat) -> u64)

  /** The instruction vectors a program is fetched from. */
  datatype Rom = Rom(entry: seq<Inst>, program: seq<Inst>, offsetNa: u64, notAligned: seq<Inst>)

  datatype Platform = Platform(rom: Rom, prims: Prims)

  function GetInstruction(rom: Rom, pc: u64): Option<Inst> {
    if pc >= ROM_ADDR then
      if pc % 4 == 0 then At(rom.program, (pc - ROM_ADDR) / 4)
      else At(rom.notAligned, pc - rom.offsetNa)
    else if pc >= ROM_ENTRY then At(rom.entry, (pc - ROM_ENTRY) / 4)
    else None
  }

  /** Indexing that panics out of bounds (a negative index is a wrapped, huge one). */
  function At<T>(s: seq<T>, i: int): Option<T> {
    if 0 <= i < |s| then Some(s[i]) else None
  }

  // ---- operands ----

  /** imm0 | imm1 << 32 */
  function Imm(imm0: u64, imm1: u64): u64 {
    BitOr(imm0, Wrap(imm1 * 0x1_0000_0000))
  }

  function AddrA(s: State, i: Inst): u64 {
    if i.aUseSpImm1 != 0 then Wrap(i.aOffsetImm0 + s.sp) else i.aOffsetImm0
  }

  /** Operand a when it does not come from memory. */
  function DirectA(s: State, i: Inst): Option<u64> {
    match i.aSrc
    case SrcC => Some(s.c)
    case SrcReg => At(s.regs, i.aOffsetImm0)
    case SrcImm => Some(Imm(i.aOffsetImm0, i.aUseSpImm1))
    case SrcStep => Some(Wrap(s.step))
    case SrcMem => None
    case SrcInd => None
  }

  predicate MemoryB(i: Inst) {
    i.bSrc.SrcMem? || i.bSrc.SrcInd?
  }

  function AddrB(s: State, i: Inst): u64 {
    var base := if i.bSrc.SrcInd? then Wrap(s.a + i.bOffsetImm0) else i.bOffsetImm0;
    if i.bUseSpImm1 != 0 then Wrap(base + s.sp) else base
  }

  function WidthB(i: Inst): nat {
    if i.bSrc.SrcInd? then i.indWidth else 8
  }

  function DirectB(s: State, i: Inst): Option<u64> {
    match i.bSrc
    case SrcC => Some(s.c)
    case SrcReg => At(s.regs, i.bOffsetImm0)
    case SrcImm => Some(Imm(i.bOffsetImm0, i.bUseSpImm1))
    case SrcStep => None
    case SrcMem => None
    case SrcInd => None
  }

  // ---- destination ----

  function ValueToStore(s: State, i: Inst): u64 {
    if i.storeRa then Wrap(s.pc + i.jmpOffset2) else s.c
  }

  predicate StoresToMemory(i: Inst) {
    i.store.StoreMem? || i.store.StoreInd?
  }

  function StoreAddr(s: State, i: Inst): u64 {
    Wrap(i.storeOffset + (if i.storeUseSp then s.sp else 0) + (if i.store.StoreInd? then s.a else 0))
  }

  function StoreWidth(i: Inst): nat {
    if i.store.StoreInd? then i.indWidth else 8
  }

  function StoreReg(s: State, i: Inst): Option<State> {
    if 0 <= i.storeOffset < 32 then Some(s.(regs := s.regs[i.storeOffset := ValueToStore(s, i)])) else None
  }

  function NextPc(s: State, i: Inst): u64 {
    if i.setPc then Wrap(s.c + i.jmpOffset1)
    else if s.flag then Wrap(s.pc + i.jmpOffset1)
    else Wrap(s.pc + i.jmpOffset2)
  }

  function Finish(s: State, i: Inst): State {
    s.(pc := NextPc(s, i), end := i.end, step := s.step + 1)
  }

  // ---- precompiles ----

  /** Number of pointers, of parameters and of words per parameter a precompile reads. */
  function Shape(op: Op): (nat, nat, nat) {
    match op
    case Keccak => (0, 1, 25)
    case Sha256 => (0, 1, 12)
    case Arith256 => (5, 3, 4)
    case Arith256Mod => (5, 4, 4)
    case Secp256k1Add => (2, 2, 8)
    case Secp256k1Dbl => (0, 1, 8)
    case _ => (0, 0, 0)
  }

  function InputWords(op: Op): (n: nat)
    ensures n == (op.InputSize() + 7) / 8
  {
    var (pointers, loads, chunk) := Shape(op);
    pointers + loads * chunk
  }

  function ReadWords(m: Memory, addr: int, n: nat): (r: Option<seq<u64>>)
    ensures r.Some? ==> |r.value| == n
  {
    if n == 0 then Some([])
    else
      var rest :- ReadWords(m, addr, n - 1);
      var w :- Read(m, Wrap(addr + 8 * (n - 1)), 8);
      Some(rest + [w])
  }

  /** The parameters, from the pointers, or from b itself when there are none. */
  function ReadParameters(m: Memory, op: Op, b: u64, pointers: seq<u64>, n: nat): (r: Option<seq<u64>>)
    requires n <= Shape(op).1 && |pointers| == Shape(op).0
    ensures r.Some? ==> |r.value| == n * Shape(op).2
  {
    if n == 0 then Some([])
    else
      var chunk := Shape(op).2;
      var rest :- ReadParameters(m, op, b, pointers, n - 1);
      var from := if Shape(op).0 == 0 then b + (n - 1) * chunk else pointers[n - 1];
      var ws :- ReadWords(m, from, chunk);
      Some(rest + ws)
  }

  function LoadData(m: Memory, op: Op, b: u64): (r: Option<seq<u64>>)
    ensures r.Some? ==> |r.value| == InputWords(op)
  {
    var pointers :- ReadWords(m, b, Shape(op).0);
    var parameters :- ReadParameters(m, op, b, pointers, Shape(op).1);
    Some(pointers + parameters)
  }

  /** Where the results go: address, index of the first result word, number of words. */
  function Outputs(op: Op, b: u64, data: seq<u64>): seq<(u64, nat, nat)>
    requires |data| == InputWords(op)
  {
    match op
    case Keccak => [(b, 0, 25)]
    case Sha256 => [(b, 0, 12)]
    case Arith256 => [(data[3], 0, 4), (data[4], 4, 4)]
    case Arith256Mod => [(data[4], 0, 4)]
    case Secp256k1Add => [(data[0], 0, 8)]
    case Secp256k1Dbl => [(b, 0, 8)]
    case _ => []
  }

  /** Only the first four words of a sha256 block change. */
  function ResultWord(prims: Prims, op: Op, data: seq<u64>, k: nat): u64 {
    if op.Sha256? && 4 <= k < |data| then data[k] else prims.word(op, data, k)
  }

  function ResultWords(prims: Prims, op: Op, data: seq<u64>, from: nat, n: nat): (r: seq<u64>)
    ensures |r| == n
  {
    if n == 0 then [] else ResultWords(prims, op, data, from, n - 1) + [ResultWord(prims, op, data, from + n - 1)]
  }

  function WriteWords(m: Memory, addr: u64, ws: seq<u64>): (r: Option<Memory>)
    ensures r.Some? ==> SameLayout(m, r.value)
  {
    if ws == [] then Some(m)
    else
      var last := |ws| - 1;
      var m1 :- WriteWords(m, addr, ws[..last]);
      Write(m1, Wrap(addr + 8 * last), ws[last], 8)
  }

  function WriteOutputs(prims: Prims, op: Op, data: seq<u64>, m: Memory, outs: seq<(u64, nat, nat)>): (r: Option<Memory>)
    ensures r.Some? ==> SameLayout(m, r.value)
    decreases |outs|
  {
    if outs == [] then Some(m)
    else
      var last := |outs| - 1;
      var (addr, from, n) := outs[last];
      var m1 :- WriteOutputs(prims, op, data, m, outs[..last]);
      WriteWords(m1, addr, ResultWords(prims, op, data, from, n))
  }

  function PrecompileInput(op: Op, s: State): (r: Option<seq<u64>>)
    ensures r.Some? ==> |r.value| == InputWords(op)
  {
    if s.b % 8 != 0 then None
    else if s.mode.ConsumeMemReads? then
      if |s.inputData| == InputWords(op) then Some(s.inputData) else None
    else LoadData(s.mem, op, s.b)
  }

  function Precompile(prims: Prims, op: Op, s: State): Option<State> {
    var data :- PrecompileInput(op, s);
    var m :- WriteOutputs(prims, op, data, s.mem, Outputs(op, s.b, data));
    Some(s.(inputData := if s.mode.GenerateMemReads? then data else s.inputData,
            mem := m, c := 0, flag := false))
  }

  // ---- free-input calls ----

  function AddParameters(m: Memory, f: FcallContext, addr: u64, n: nat): Option<FcallContext>
    requires f.parametersSize + n < 32
  {
    var ws :- ReadWords(m, addr, n);
    Some(f.(parameters := f.parameters[..f.parametersSize] + ws + f.parameters[f.parametersSize + n..],
            parametersSize := f.parametersSize + n))
  }

  function OpcFcallParam(s: State): Option<State> {
    var s1 := s.(c := s.b, flag := false);
    if s.mode.ConsumeMemReads? then Some(s1)
    else if s.fcall.parametersSize + s.a >= 32 then None
    else if s.a == 1 then
      Some(s1.(fcall := s.fcall.(parameters := s.fcall.parameters[s.fcall.parametersSize := s.b],
                                 parametersSize := s.fcall.parametersSize + 1)))
    else
      var f :- AddParameters(s.mem, s.fcall, s.b, s.a);
      Some(s1.(fcall := f))
  }

  function FcallWords(prims: Prims, id: u64, f: FcallContext, n: nat): (r: seq<u64>)
    ensures |r| == n
  {
    if n == 0 then [] else FcallWords(prims, id, f, n - 1) + [prims.fcallWord(id, f.parameters, f.results, n - 1)]
  }

  function FcallResults(prims: Prims, id: u64, f: FcallContext): Words32 {
    FcallWords(prims, id, f, 32)
  }

  function OpcFcall(prims: Prims, s: State): Option<State> {
    var s1 := s.(c := s.b, flag := false);
    if s.mode.ConsumeMemReads? then Some(s1)
    else
      var f := s.fcall;
      var size := prims.fcallSize(s.a, f.parameters);
      if size < 0 then None
      else
        var results := FcallResults(prims, s.a, f);
        Some(s1.(fcall := f.(results := results, resultGot := 1, resultSize := size, parametersSize := 0),
                 mem := s.mem.(freeInput := if size > 0 then results[0] else 0)))
  }

  function OpcFcallGet(s: State): Option<State> {
    var s1 := s.(c := s.b, flag := false);
    if s.mode.ConsumeMemReads? then Some(s1)
    else
      var f := s.fcall;
      if f.resultSize == 0 || f.resultSize > 32 || f.resultGot > f.resultSize then None
      else
        var free :- if f.resultGot >= f.resultSize then Some(0) else At(f.results, f.resultGot);
        Some(s1.(fcall := f.(resultGot := f.resultGot + 1), mem := s.mem.(freeInput := free)))
  }

  /** The operation of an instruction. */
  function Call(prims: Prims, op: Op, s: State): Option<State> {
    if IsAlu(op) then
      var (c, flag) := Alu(op, s.a, s.b);
      Some(s.(c := c, flag := flag))
    else if op.InputSize() > 0 then Precompile(prims, op, s)
    else
      match op
      case FcallParam => OpcFcallParam(s)
      case Fcall => OpcFcall(prims, s)
      case FcallGet => OpcFcallGet(s)
      case _ => Some(s)
  }

  // ---- plain step ----

  function SourceA(s: State, i: Inst): Option<State> {
    var a :- if i.aSrc.SrcMem? then Read(s.mem, AddrA(s, i), 8) else DirectA(s, i);
    Some(s.(a := a))
  }

  function SourceB(s: State, i: Inst): Option<State> {
    var b :- if MemoryB(i) then Read(s.mem, AddrB(s, i), WidthB(i)) else DirectB(s, i);
    Some(s.(b := b))
  }

  function StoreC(s: State, i: Inst): Option<State> {
    if i.store.StoreNone? then Some(s)
    else if i.store.StoreReg? then StoreReg(s, i)
    else
      var m :- Write(s.mem, StoreAddr(s, i), ValueToStore(s, i), StoreWidth(i));
      Some(s.(mem := m))
  }

  /** step_fast and par_step. */
  function Step(p: Platform, s: State): Option<State> {
    var i :- GetInstruction(p.rom, s.pc);
    var s1 :- SourceA(s, i);
    Rest(p.prims, i, s1)
  }

  /** The part of a step that follows operand a. */
  function Rest(prims: Prims, i: Inst, s1: State): Option<State> {
    var s2 :- SourceB(s1, i);
    var s3 :- Call(prims, i.op, s2);
    var s4 :- StoreC(s3, i);
    Some(Finish(s4, i))
  }

  // ---- recording step ----

  /** The value of a memory operand and the words logged for it. */
  function LogRead(m: Memory, addr: u64, width: nat): Option<(u64, seq<u64>)> {
    if FullAligned(addr, width) then
      var v :- Read(m, addr, width);
      Some((v, [v]))
    else ReadRequired(m, addr, width)
  }

  function SourceAGenerate(s: State, i: Inst): Option<(State, seq<u64>)> {
    if i.aSrc.SrcMem? then
      var (a, ws) :- LogRead(s.mem, AddrA(s, i), 8);
      Some((s.(a := a), ws))
    else
      var a :- DirectA(s, i);
      Some((s.(a := a), []))
  }

  function SourceBGenerate(s: State, i: Inst): Option<(State, seq<u64>)> {
    if MemoryB(i) then
      var (b, ws) :- LogRead(s.mem, AddrB(s, i), WidthB(i));
      Some((s.(b := b), ws))
    else
      var b :- DirectB(s, i);
      Some((s.(b := b), []))
  }

  /** An unaligned store logs the words it is about to modify; their value lands in b. */
  function StoreCGenerate(s: State, i: Inst): Option<(State, seq<u64>)> {
    if i.store.StoreNone? then Some((s, []))
    else if i.store.StoreReg? then
      var s1 :- StoreReg(s, i);
      Some((s1, []))
    else
      var (addr, width) := (StoreAddr(s, i), StoreWidth(i));
      var (b, ws) :- if FullAligned(addr, width) then Some((s.b, [])) else ReadRequired(s.mem, addr, width);
      var m :- Write(s.mem, addr, ValueToStore(s, i), width);
      Some((s.(b := b, mem := m), ws))
  }

  /** A precompile starts from empty input data, which it fills and which is then logged. */
  function CallGenerate(prims: Prims, op: Op, s: State): Option<(State, seq<u64>)> {
    if op.InputSize() > 0 then
      var s1 :- Call(prims, op, s.(inputData := []));
      Some((s1.(inputData := []), s1.inputData))
    else
      var s1 :- Call(prims, op, s);
      Some((s1, []))
  }

  /** par_step_my_block: the next state and the words appended to the trace. */
  function StepGenerate(p: Platform, s: State): Option<(State, seq<u64>)> {
    var i :- GetInstruction(p.rom, s.pc);
    var (s1, ws1) :- SourceAGenerate(s, i);
    var (s', ws) :- RestGenerate(p.prims, i, s1);
    Some((s', ws1 + ws))
  }

  function RestGenerate(prims: Prims, i: Inst, s1: State): Option<(State, seq<u64>)> {
    var (s2, ws2) :- SourceBGenerate(s1, i);
    var (s3, ws3) :- CallGenerate(prims, i.op, s2);
    var (s4, ws4) :- StoreCGenerate(s3, i);
    Some((Finish(s4, i), ws2 + (ws3 + ws4)))
  }

  // ---- replaying step ----

  /** The value of a memory operand from the recorded words, and the index after them. */
  function ConsumeRead(log: seq<u64>, index: nat, addr: u64, width: nat): Option<(u64, nat)> {
    if FullAligned(addr, width) then
      var v :- At(log, index);
      Some((v, index + 1))
    else
      var (first, second) := RequiredAddresses(addr, width);
      var raw1 :- At(log, index);
      if first == second then
        var v :- SingleNotAligned(addr, width, raw1);
        Some((v, index + 1))
      else
        var raw2 :- At(log, index + 1);
        var v :- DoubleNotAligned(addr, width, raw1, raw2);
        Some((v, index + 2))
  }

  function SourceAConsume(s: State, i: Inst, log: seq<u64>, index: nat): Option<(State, nat)> {
    if i.aSrc.SrcMem? then
      var (a, k) :- ConsumeRead(log, index, AddrA(s, i), 8);
      Some((s.(a := a), k))
    else
      var a :- DirectA(s, i);
      Some((s.(a := a), index))
  }

  function SourceBConsume(s: State, i: Inst, log: seq<u64>, index: nat): Option<(State, nat)> {
    if MemoryB(i) then
      var (b, k) :- ConsumeRead(log, index, AddrB(s, i), WidthB(i));
      Some((s.(b := b), k))
    else
      var b :- DirectB(s, i);
      Some((s.(b := b), index))
  }

  function CallConsume(prims: Prims, op: Op, s: State, log: seq<u64>, index: nat): Option<(State, nat)> {
    if op.InputSize() > 0 then
      var n := (op.InputSize() + 7) / 8;
      if index + n > |log| then None
      else
        var s1 :- Call(prims, op, s.(inputData := log[index..index + n]));
        Some((s1, index + n))
    else
      var s1 :- Call(prims, op, s);
      Some((s1, index))
  }

  /** How many words an unaligned store logged. */
  function SkippedWords(addr: u64, width: nat): nat {
    var (first, second) := RequiredAddresses(addr, width);
    if FullAligned(addr, width) then 0 else if first == second then 1 else 2
  }

  /** Memory is left alone; the words an unaligned store logged are skipped. */
  function StoreCConsume(s: State, i: Inst, log: seq<u64>, index: nat): Option<(State, nat)> {
    if i.store.StoreNone? then Some((s, index))
    else if i.store.StoreReg? then
      var s1 :- StoreReg(s, i);
      Some((s1, index))
    else
      var n := SkippedWords(StoreAddr(s, i), StoreWidth(i));
      if index + n > |log| then None else Some((s, index + n))
  }

  /** step_emu_trace, step_emu_traces and step_slice_full_trace. */
  function StepConsume(p: Platform, s: State, log: seq<u64>, index: nat): Option<(State, nat)> {
    var i :- GetInstruction(p.rom, s.pc);
    var (s1, k1) :- SourceAConsume(s, i, log, index);
    RestConsume(p.prims, i, s1, log, k1)
  }

  function RestConsume(prims: Prims, i: Inst, s1: State, log: seq<u64>, k1: nat): Option<(State, nat)> {
    var (s2, k2) :- SourceBConsume(s1, i, log, k1);
    var (s3, k3) :- CallConsume(prims, i.op, s2, log, k2);
    var (s4, k4) :- StoreCConsume(s3, i, log, k3);
    Some((Finish(s4, i), k4))
  }
}
