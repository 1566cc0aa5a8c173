/**
 * Recording does not disturb the run, and replaying from the recorded words alone repeats it.
 */
module RecordReplay {
  import opened Words
  import opened Wrappers
  import opened MemoryModel
  import opened MemoryLemmas
  import opened ZiskInst
  import opened ZiskOps
  import opened Machine

  // ---- recording is invisible ----

  /** A state without the two fields in which the variants of a step differ. */
  function Core(s: State): State {
    s.(b := 0, inputData := [])
  }

  function NoInput(s: State): State {
    s.(inputData := [])
  }

  function CoreOf(x: Option<State>): Option<State> {
    if x.Some? then Some(Core(x.value)) else None
  }

  function NoInputOf(x: Option<State>): Option<State> {
    if x.Some? then Some(NoInput(x.value)) else None
  }

  /** The state a recording step reaches. */
  function StateOf<T>(x: Option<(State, T)>): Option<State> {
    if x.Some? then Some(x.value.0) else None
  }

  /** The words a recording step logs. */
  function LogOf(x: Option<(State, seq<u64>)>): Option<seq<u64>> {
    if x.Some? then Some(x.value.1) else None
  }

  predicate Executes(s: State) {
    !s.mode.ConsumeMemReads?
  }

  lemma LogReadAgrees(m: Memory, addr: u64, width: nat)
    ensures LogRead(m, addr, width).Some? <==> Read(m, addr, width).Some?
    ensures LogRead(m, addr, width).Some? ==> LogRead(m, addr, width).value.0 == Read(m, addr, width).value
  {
    ReadRequiredAgrees(m, addr, width);
    hide Read, ReadRequired;
    if Read(m, addr, width).Some? && !FullAligned(addr, width) {
      Reassembly(m, addr, width);
    }
  }

  lemma SourceAAgrees(s: State, t: State, i: Inst)
    requires Core(s) == Core(t)
    ensures CoreOf(SourceA(s, i)) == CoreOf(SourceA(t, i))
    ensures LogOf(SourceAGenerate(s, i)) == LogOf(SourceAGenerate(t, i))
  {
    hide Read, LogRead, Imm;
    assert DirectA(s, i) == DirectA(t, i);
    assert AddrA(s, i) == AddrA(t, i);
  }

  lemma SourceBAgrees(s: State, t: State, i: Inst)
    requires Core(s) == Core(t)
    ensures NoInputOf(SourceB(s, i)) == NoInputOf(SourceB(t, i))
    ensures LogOf(SourceBGenerate(s, i)) == LogOf(SourceBGenerate(t, i))
  {
    hide Read, LogRead, Imm;
    assert DirectB(s, i) == DirectB(t, i);
    assert AddrB(s, i) == AddrB(t, i);
  }

  lemma SourcesLogged(s: State, i: Inst)
    ensures StateOf(SourceAGenerate(s, i)) == SourceA(s, i)
    ensures StateOf(SourceBGenerate(s, i)) == SourceB(s, i)
  {
    hide Read, LogRead, Imm;
    LogReadAgrees(s.mem, AddrA(s, i), 8);
    LogReadAgrees(s.mem, AddrB(s, i), WidthB(i));
  }

  /** Outside replay, precompiles read memory, never the input data left by an earlier one. */
  lemma PrecompileAgrees(prims: Prims, op: Op, s: State, t: State)
    requires NoInput(s) == NoInput(t) && Executes(s)
    ensures NoInputOf(Precompile(prims, op, s)) == NoInputOf(Precompile(prims, op, t))
    ensures s.mode.GenerateMemReads? ==> Precompile(prims, op, s) == Precompile(prims, op, t)
  {
    hide LoadData, WriteOutputs, Outputs;
    assert PrecompileInput(op, s) == PrecompileInput(op, t);
  }

  lemma CallAgrees(prims: Prims, op: Op, s: State, t: State)
    requires NoInput(s) == NoInput(t) && Executes(s)
    ensures NoInputOf(Call(prims, op, s)) == NoInputOf(Call(prims, op, t))
    ensures op.InputSize() > 0 && s.mode.GenerateMemReads? ==> Call(prims, op, s) == Call(prims, op, t)
  {
    PrecompileAgrees(prims, op, s, t);
    FcallsAgree(prims, s, t);
    hide Alu, Precompile, OpcFcallParam, OpcFcall, OpcFcallGet;
  }

  lemma FcallsAgree(prims: Prims, s: State, t: State)
    requires NoInput(s) == NoInput(t)
    ensures NoInputOf(OpcFcallParam(s)) == NoInputOf(OpcFcallParam(t))
    ensures NoInputOf(OpcFcall(prims, s)) == NoInputOf(OpcFcall(prims, t))
    ensures NoInputOf(OpcFcallGet(s)) == NoInputOf(OpcFcallGet(t))
  {
    hide AddParameters;
  }

  lemma CallLogged(prims: Prims, op: Op, s: State, t: State)
    requires NoInput(s) == NoInput(t) && Executes(s)
    ensures NoInputOf(StateOf(CallGenerate(prims, op, s))) == NoInputOf(Call(prims, op, t))
    ensures LogOf(CallGenerate(prims, op, s)) == LogOf(CallGenerate(prims, op, t))
  {
    hide Call;
    CallAgrees(prims, op, s, t);
    CallAgrees(prims, op, NoInput(s), t);
  }

  lemma StoreAgrees(s: State, t: State, i: Inst)
    requires Core(s) == Core(t)
    ensures CoreOf(StoreC(s, i)) == CoreOf(StoreC(t, i))
    ensures LogOf(StoreCGenerate(s, i)) == LogOf(StoreCGenerate(t, i))
  {
    hide Read, Write, ReadRequired;
    assert StoreAddr(s, i) == StoreAddr(t, i) && ValueToStore(s, i) == ValueToStore(t, i);
  }

  lemma StoreLogged(s: State, i: Inst)
    ensures CoreOf(StateOf(StoreCGenerate(s, i))) == CoreOf(StoreC(s, i))
  {
    var addr, width := StoreAddr(s, i), StoreWidth(i);
    AccessesAgree(s.mem, addr, ValueToStore(s, i), width);
    hide Read, Write, ReadRequired, StoreAddr, ValueToStore, FullAligned;
  }

  /** Reading the words around an access fails exactly when writing it does. */
  lemma AccessesAgree(m: Memory, addr: u64, val: u64, width: nat)
    ensures ReadRequired(m, addr, width).Some? == Write(m, addr, val, width).Some?
  {
    WriteRefinesBytes(m, addr, val, width);
    ReadRefinesBytes(m, addr, width);
    ReadRequiredAgrees(m, addr, width);
    hide Read, Write, ReadRequired;
  }

  lemma FinishAgrees(s: State, t: State, i: Inst)
    requires Core(s) == Core(t)
    ensures Core(Finish(s, i)) == Core(Finish(t, i))
  {
  }

  lemma RestAgrees(prims: Prims, i: Inst, s1: State, t1: State)
    requires Core(s1) == Core(t1) && Executes(s1)
    ensures CoreOf(Rest(prims, i, s1)) == CoreOf(Rest(prims, i, t1))
  {
    SourceBAgrees(s1, t1, i);
    ModeKept(s1, i);
    hide SourceA, SourceB, Call, StoreC, Finish;
    if SourceB(s1, i).Some? {
      var s2, t2 := SourceB(s1, i).value, SourceB(t1, i).value;
      CallAgrees(prims, i.op, s2, t2);
      if Call(prims, i.op, s2).Some? {
        var s3, t3 := Call(prims, i.op, s2).value, Call(prims, i.op, t2).value;
        StoreAgrees(s3, t3, i);
        if StoreC(s3, i).Some? {
          FinishAgrees(StoreC(s3, i).value, StoreC(t3, i).value, i);
        }
      }
    }
  }

  lemma ModeKept(s: State, i: Inst)
    ensures SourceA(s, i).Some? ==> SourceA(s, i).value.mode == s.mode
    ensures SourceB(s, i).Some? ==> SourceB(s, i).value.mode == s.mode
  {
    hide Read, Imm;
  }

  /** A step does not depend on b or on left-over input data. */
  lemma StepAgrees(p: Platform, s: State, t: State)
    requires Core(s) == Core(t) && Executes(s)
    ensures CoreOf(Step(p, s)) == CoreOf(Step(p, t))
  {
    if GetInstruction(p.rom, s.pc).Some? {
      var i := GetInstruction(p.rom, s.pc).value;
      SourceAAgrees(s, t, i);
      ModeKept(s, i);
      hide SourceA, Rest, GetInstruction;
      if SourceA(s, i).Some? {
        RestAgrees(p.prims, i, SourceA(s, i).value, SourceA(t, i).value);
      }
    }
  }

  lemma RestRecorded(prims: Prims, i: Inst, s1: State, t1: State)
    requires Core(s1) == Core(t1) && Executes(s1)
    ensures CoreOf(StateOf(RestGenerate(prims, i, s1))) == CoreOf(Rest(prims, i, t1))
    ensures LogOf(RestGenerate(prims, i, s1)) == LogOf(RestGenerate(prims, i, t1))
  {
    SourceBAgrees(s1, t1, i);
    SourcesLogged(s1, i);
    SourcesLogged(t1, i);
    ModeKept(s1, i);
    hide SourceA, SourceB, Call, StoreC, Finish, SourceAGenerate, SourceBGenerate, CallGenerate, StoreCGenerate;
    if SourceB(s1, i).Some? {
      var s2, t2 := SourceB(s1, i).value, SourceB(t1, i).value;
      CallLogged(prims, i.op, s2, t2);
      CallLogged(prims, i.op, t2, t2);
      if Call(prims, i.op, t2).Some? {
        var s3, t3 := CallGenerate(prims, i.op, s2).value.0, CallGenerate(prims, i.op, t2).value.0;
        var u3 := Call(prims, i.op, t2).value;
        StoreLogged(s3, i);
        StoreAgrees(s3, u3, i);
        StoreAgrees(s3, t3, i);
        if StoreC(u3, i).Some? {
          FinishAgrees(StoreCGenerate(s3, i).value.0, StoreC(u3, i).value, i);
        }
      }
    }
  }

  /** A recording step succeeds exactly when the plain step does and reaches the same state, up to
      b and the precompile buffers; what it records depends on neither. */
  lemma RecordingInvisible(p: Platform, s: State, t: State)
    requires Core(s) == Core(t) && Executes(s)
    ensures CoreOf(StateOf(StepGenerate(p, s))) == CoreOf(Step(p, t))
    ensures LogOf(StepGenerate(p, s)) == LogOf(StepGenerate(p, t))
  {
    if GetInstruction(p.rom, s.pc).Some? {
      var i := GetInstruction(p.rom, s.pc).value;
      SourceAAgrees(s, t, i);
      SourcesLogged(s, i);
      SourcesLogged(t, i);
      ModeKept(s, i);
      hide SourceA, SourceAGenerate, Rest, RestGenerate, GetInstruction;
      if SourceA(s, i).Some? {
        RestRecorded(p.prims, i, SourceA(s, i).value, SourceA(t, i).value);
      }
    }
  }

  lemma CallKeepsMode(prims: Prims, op: Op, s: State)
    requires Call(prims, op, s).Some?
    ensures Call(prims, op, s).value.mode == s.mode && Call(prims, op, s).value.step == s.step
  {
    hide Alu, PrecompileInput, WriteOutputs, Outputs, AddParameters;
  }

  lemma StepKeepsMode(p: Platform, s: State)
    requires Step(p, s).Some?
    ensures Step(p, s).value.mode == s.mode && Step(p, s).value.step == s.step + 1
  {
    hide Read, Write, Imm, Call, GetInstruction, AddrA, AddrB, StoreAddr, NextPc, DirectA, DirectB;
    var i := GetInstruction(p.rom, s.pc).value;
    var s2 := SourceB(SourceA(s, i).value, i).value;
    CallKeepsMode(p.prims, i.op, s2);
  }

  // ---- replay ----

  /** What a recording state and a replaying state have in common between steps. Memory, fcall
      data, b and the flags of the previous step may all differ. */
  ghost predicate Matches(s: State, r: State) {
    && s.pc == r.pc && s.sp == r.sp && s.step == r.step && s.c == r.c && s.regs == r.regs
    && s.mode.GenerateMemReads? && r.mode.ConsumeMemReads?
  }

  /** After a replayed step: everything an observer of the step sees is the same. */
  ghost predicate Reproduces(s: State, r: State) {
    Matches(s, r) && s.a == r.a && s.flag == r.flag && s.end == r.end
  }

  /** words stand in the log from position k on. */
  ghost predicate LoggedAt(log: seq<u64>, k: nat, words: seq<u64>) {
    k + |words| <= |log| && log[k..k + |words|] == words
  }

  lemma LoggedSplit(log: seq<u64>, k: nat, x: seq<u64>, y: seq<u64>)
    requires LoggedAt(log, k, x + y)
    ensures LoggedAt(log, k, x) && LoggedAt(log, k + |x|, y)
  {
    var n := |x + y|;
    forall j | 0 <= j < |x|
      ensures log[k + j] == x[j]
    {
      assert log[k..k + n][j] == (x + y)[j];
    }
    forall j | 0 <= j < |y|
      ensures log[k + |x| + j] == y[j]
    {
      assert log[k..k + n][|x| + j] == (x + y)[|x| + j];
    }
  }

  lemma LoggedWords(log: seq<u64>, k: nat, ws: seq<u64>)
    requires LoggedAt(log, k, ws)
    ensures |ws| >= 1 ==> At(log, k) == Some(ws[0])
    ensures |ws| >= 2 ==> At(log, k + 1) == Some(ws[1])
  {
    if |ws| >= 1 { assert log[k..k + |ws|][0] == log[k]; }
    if |ws| >= 2 { assert log[k..k + |ws|][1] == log[k + 1]; }
  }

  /** A logged operand is read back from the log, and exactly its words are consumed. */
  lemma ReadReplayed(m: Memory, addr: u64, width: nat, log: seq<u64>, k: nat)
    requires LogRead(m, addr, width).Some? && LoggedAt(log, k, LogRead(m, addr, width).value.1)
    ensures ConsumeRead(log, k, addr, width) ==
            Some((LogRead(m, addr, width).value.0, k + |LogRead(m, addr, width).value.1|))
  {
    LogReadAgrees(m, addr, width);
    var (v, ws) := LogRead(m, addr, width).value;
    LoggedWords(log, k, ws);
    if !FullAligned(addr, width) {
      Reassembly(m, addr, width);
      hide Read, ReadRequired, RequiredAddresses, SingleNotAligned, DoubleNotAligned;
    }
  }

  lemma SourceAReplayed(s: State, r: State, i: Inst, log: seq<u64>, k: nat)
    requires Matches(s, r) && SourceAGenerate(s, i).Some?
    requires LoggedAt(log, k, SourceAGenerate(s, i).value.1)
    ensures SourceAConsume(r, i, log, k) ==
            Some((r.(a := SourceAGenerate(s, i).value.0.a), k + |SourceAGenerate(s, i).value.1|))
  {
    hide LogRead, ConsumeRead, Imm, LoggedAt;
    if i.aSrc.SrcMem? {
      assert AddrA(s, i) == AddrA(r, i);
      ReadReplayed(s.mem, AddrA(s, i), 8, log, k);
    }
  }

  lemma SourceBReplayed(s: State, r: State, i: Inst, log: seq<u64>, k: nat)
    requires Matches(s, r) && s.a == r.a && SourceBGenerate(s, i).Some?
    requires LoggedAt(log, k, SourceBGenerate(s, i).value.1)
    ensures SourceBConsume(r, i, log, k) ==
            Some((r.(b := SourceBGenerate(s, i).value.0.b), k + |SourceBGenerate(s, i).value.1|))
  {
    hide LogRead, ConsumeRead, Imm, LoggedAt;
    if MemoryB(i) {
      assert AddrB(s, i) == AddrB(r, i);
      ReadReplayed(s.mem, AddrB(s, i), WidthB(i), log, k);
    } else {
      assert DirectB(s, i) == DirectB(r, i);
    }
  }

  // ---- where precompiles write ----

  ghost predicate RangeAccessible(m: Memory, addr: u64, n: nat) {
    forall j :: 0 <= j < n ==> WordAccessible(m, addr, j)
  }

  predicate WordAccessible(m: Memory, addr: u64, j: nat) {
    Accessible(m, Wrap(addr + 8 * j), 8)
  }

  ghost predicate OutputsFit(m: Memory, outs: seq<(u64, nat, nat)>) {
    forall o :: o in outs ==> RangeAccessible(m, o.0, o.2)
  }

  lemma LayoutRange(m: Memory, m': Memory, addr: u64, n: nat)
    requires SameLayout(m, m')
    ensures RangeAccessible(m, addr, n) == RangeAccessible(m', addr, n)
  {
    forall j | 0 <= j < n
      ensures WordAccessible(m, addr, j) == WordAccessible(m', addr, j)
    {
      LayoutAccessible(m, m', Wrap(addr + 8 * j), 8);
    }
  }

  lemma {:induction false} WriteWordsFit(m: Memory, addr: u64, ws: seq<u64>)
    ensures WriteWords(m, addr, ws).Some? <==> RangeAccessible(m, addr, |ws|)
    decreases |ws|
  {
    hide Write, Accessible;
    if ws != [] {
      var last := |ws| - 1;
      WriteWordsFit(m, addr, ws[..last]);
      if WriteWords(m, addr, ws[..last]).Some? {
        var m1 := WriteWords(m, addr, ws[..last]).value;
        WriteRefinesBytes(m1, Wrap(addr + 8 * last), ws[last], 8);
        LayoutAccessible(m, m1, Wrap(addr + 8 * last), 8);
      }
      assert RangeAccessible(m, addr, |ws|) <==> RangeAccessible(m, addr, last) && WordAccessible(m, addr, last);
    }
  }

  /** Whether the results of a precompile can be stored depends on where they go, not on them. */
  lemma {:induction false} WriteOutputsFit(prims: Prims, op: Op, data: seq<u64>, m: Memory, outs: seq<(u64, nat, nat)>)
    ensures WriteOutputs(prims, op, data, m, outs).Some? <==> OutputsFit(m, outs)
    decreases |outs|
  {
    hide WriteWords, RangeAccessible, ResultWords;
    if outs != [] {
      var last := |outs| - 1;
      var (addr, from, n) := outs[last];
      WriteOutputsFit(prims, op, data, m, outs[..last]);
      if WriteOutputs(prims, op, data, m, outs[..last]).Some? {
        var m1 := WriteOutputs(prims, op, data, m, outs[..last]).value;
        WriteWordsFit(m1, addr, ResultWords(prims, op, data, from, n));
        LayoutRange(m, m1, addr, n);
      }
      assert outs == outs[..last] + [outs[last]];
    }
  }

  /** Where the operation of an instruction stores results, given its operands. */
  function CallOutputs(op: Op, s: State): seq<(u64, nat, nat)> {
    if op.InputSize() > 0 && PrecompileInput(op, s).Some? then
      Outputs(op, s.b, PrecompileInput(op, s).value)
    else []
  }

  lemma CallReplayed(prims: Prims, op: Op, s: State, r: State, log: seq<u64>, k: nat)
    requires Matches(s, r) && s.a == r.a && s.b == r.b && !op.NoFunc? && CallGenerate(prims, op, s).Some?
    requires LoggedAt(log, k, CallGenerate(prims, op, s).value.1)
    ensures OutputsFit(r.mem, CallOutputs(op, s)) <==> CallConsume(prims, op, r, log, k).Some?
    ensures CallConsume(prims, op, r, log, k).Some? ==>
              && Operated(CallGenerate(prims, op, s).value.0, CallConsume(prims, op, r, log, k).value.0)
              && SameLayout(r.mem, CallConsume(prims, op, r, log, k).value.0.mem)
              && CallConsume(prims, op, r, log, k).value.1 == k + |CallGenerate(prims, op, s).value.1|
  {
    hide Alu, PrecompileInput, OpcFcallParam, OpcFcall, OpcFcallGet, LoggedAt;
    if op.InputSize() > 0 {
      PrecompileReplayed(prims, op, s, r, log, k);
    } else {
      FcallsReplayed(prims, s, r);
    }
  }

  /** Replay skips the free-input calls: their results are in the log. */
  lemma FcallsReplayed(prims: Prims, s: State, r: State)
    requires Matches(s, r) && s.b == r.b
    ensures OpcFcallParam(r) == Some(r.(c := s.b, flag := false)) == OpcFcall(prims, r) == OpcFcallGet(r)
    ensures OpcFcallParam(s).Some? ==> Copied(s, OpcFcallParam(s).value)
    ensures OpcFcall(prims, s).Some? ==> Copied(s, OpcFcall(prims, s).value)
    ensures OpcFcallGet(s).Some? ==> Copied(s, OpcFcallGet(s).value)
  {
    hide AddParameters;
  }

  /** c is b, flag is false, and the rest of what replay sees is unchanged. */
  ghost predicate Copied(s: State, s': State) {
    s' == s.(c := s.b, flag := false, mem := s'.mem, fcall := s'.fcall)
  }

  /** After the operation: still matching, with the same operand a and flag. */
  ghost predicate Operated(s: State, r: State) {
    Matches(s, r) && s.a == r.a && s.flag == r.flag
  }

  lemma PrecompileReplayed(prims: Prims, op: Op, s: State, r: State, log: seq<u64>, k: nat)
    requires Matches(s, r) && s.a == r.a && s.b == r.b && op.InputSize() > 0 && CallGenerate(prims, op, s).Some?
    requires LoggedAt(log, k, CallGenerate(prims, op, s).value.1)
    ensures OutputsFit(r.mem, CallOutputs(op, s)) <==> CallConsume(prims, op, r, log, k).Some?
    ensures CallConsume(prims, op, r, log, k).Some? ==>
              && Operated(CallGenerate(prims, op, s).value.0, CallConsume(prims, op, r, log, k).value.0)
              && SameLayout(r.mem, CallConsume(prims, op, r, log, k).value.0.mem)
              && CallConsume(prims, op, r, log, k).value.1 == k + |CallGenerate(prims, op, s).value.1|
  {
    hide Alu, LoadData, WriteOutputs, Outputs, OutputsFit;
    var data := PrecompileInput(op, NoInput(s)).value;
    assert PrecompileInput(op, s) == Some(data);
    assert CallGenerate(prims, op, s).value.1 == data;
    var r1 := r.(inputData := data);
    assert PrecompileInput(op, r1) == Some(data);
    WriteOutputsFit(prims, op, data, r.mem, Outputs(op, r.b, data));
  }

  lemma StoreReplayed(s: State, r: State, i: Inst, log: seq<u64>, k: nat)
    requires Operated(s, r) && StoreCGenerate(s, i).Some?
    requires LoggedAt(log, k, StoreCGenerate(s, i).value.1)
    ensures StoreCConsume(r, i, log, k).Some?
    ensures Operated(StoreCGenerate(s, i).value.0, StoreCConsume(r, i, log, k).value.0)
    ensures StoreCConsume(r, i, log, k).value.0.mem == r.mem
    ensures StoreCConsume(r, i, log, k).value.1 == k + |StoreCGenerate(s, i).value.1|
  {
    hide Read, ReadRequired, RequiredAddresses, Write, SingleNotAligned, DoubleNotAligned;
    assert StoreAddr(s, i) == StoreAddr(r, i) && ValueToStore(s, i) == ValueToStore(r, i);
    var addr, width := StoreAddr(s, i), StoreWidth(i);
    if StoresToMemory(i) && !FullAligned(addr, width) {
      ReadRequiredAgrees(s.mem, addr, width);
      Reassembly(s.mem, addr, width);
    }
  }

  lemma FinishReplayed(s: State, r: State, i: Inst)
    requires Operated(s, r)
    ensures Reproduces(Finish(s, i), Finish(r, i))
  {
  }

  // ---- a whole step ----

  /** The instruction at the program counter is one the transpiler or the BIOS emitted, not the
      filler of an index vector. */
  predicate Operates(p: Platform, s: State) {
    GetInstruction(p.rom, s.pc).Some? ==> !GetInstruction(p.rom, s.pc).value.op.NoFunc?
  }

  /** Where the step from s stores precompile results. */
  function RestOutputs(i: Inst, s1: State): seq<(u64, nat, nat)> {
    if SourceB(s1, i).Some? then CallOutputs(i.op, SourceB(s1, i).value) else []
  }

  function StepOutputs(p: Platform, s: State): seq<(u64, nat, nat)> {
    var i := GetInstruction(p.rom, s.pc);
    if i.Some? && SourceA(s, i.value).Some? then RestOutputs(i.value, SourceA(s, i.value).value) else []
  }

  lemma RestReplayed(prims: Prims, i: Inst, s1: State, r1: State, log: seq<u64>, k: nat)
    requires Matches(s1, r1) && s1.a == r1.a && !i.op.NoFunc? && RestGenerate(prims, i, s1).Some?
    requires LoggedAt(log, k, RestGenerate(prims, i, s1).value.1)
    ensures OutputsFit(r1.mem, RestOutputs(i, s1)) <==> RestConsume(prims, i, r1, log, k).Some?
    ensures RestConsume(prims, i, r1, log, k).Some? ==>
              && Reproduces(RestGenerate(prims, i, s1).value.0, RestConsume(prims, i, r1, log, k).value.0)
              && SameLayout(r1.mem, RestConsume(prims, i, r1, log, k).value.0.mem)
              && RestConsume(prims, i, r1, log, k).value.1 == k + |RestGenerate(prims, i, s1).value.1|
  {
    hide SourceB, SourceBGenerate, SourceBConsume, CallGenerate, CallConsume, StoreCGenerate, StoreCConsume,
      Finish, CallOutputs, OutputsFit, LoggedAt, SameLayout, Reproduces, Operated;
    var (s2, ws2) := SourceBGenerate(s1, i).value;
    var (s3, ws3) := CallGenerate(prims, i.op, s2).value;
    var (s4, ws4) := StoreCGenerate(s3, i).value;
    SourcesLogged(s1, i);
    SourcesOnly(s1, i);
    LoggedSplit(log, k, ws2, ws3 + ws4);
    LoggedSplit(log, k + |ws2|, ws3, ws4);
    SourceBReplayed(s1, r1, i, log, k);
    var r2, k2 := r1.(b := s2.b), k + |ws2|;
    CallReplayed(prims, i.op, s2, r2, log, k2);
    var called := CallConsume(prims, i.op, r2, log, k2);
    if called.Some? {
      var r3, k3 := called.value.0, k2 + |ws3|;
      StoreReplayed(s3, r3, i, log, k3);
      var r4 := StoreCConsume(r3, i, log, k3).value.0;
      FinishReplayed(s4, r4, i);
      FinishMemory(r4, i);
      assert RestConsume(prims, i, r1, log, k) == Some((Finish(r4, i), k3 + |ws4|));
    }
  }

  lemma FinishMemory(s: State, i: Inst)
    ensures Finish(s, i).mem == s.mem
  {
  }

  /** A recorded step is replayed from its own words, consuming all of them and nothing else. The
      replay fails exactly when a precompile stores where the replaying memory has no section. */
  lemma StepReplayed(p: Platform, s: State, r: State, log: seq<u64>, k: nat)
    requires Matches(s, r) && Operates(p, s) && StepGenerate(p, s).Some?
    requires LoggedAt(log, k, StepGenerate(p, s).value.1)
    ensures OutputsFit(r.mem, StepOutputs(p, s)) <==> StepConsume(p, r, log, k).Some?
    ensures StepConsume(p, r, log, k).Some? ==>
              && Reproduces(StepGenerate(p, s).value.0, StepConsume(p, r, log, k).value.0)
              && SameLayout(r.mem, StepConsume(p, r, log, k).value.0.mem)
              && StepConsume(p, r, log, k).value.1 == k + |StepGenerate(p, s).value.1|
  {
    hide SourceA, SourceAGenerate, SourceAConsume, RestGenerate, RestConsume, RestOutputs, OutputsFit, LoggedAt,
      SameLayout, GetInstruction, Reproduces;
    var i := GetInstruction(p.rom, s.pc).value;
    var (s1, ws1) := SourceAGenerate(s, i).value;
    SourcesLogged(s, i);
    SourcesOnly(s, i);
    var (s', ws) := RestGenerate(p.prims, i, s1).value;
    LoggedSplit(log, k, ws1, ws);
    SourceAReplayed(s, r, i, log, k);
    var r1 := r.(a := s1.a);
    RestReplayed(p.prims, i, s1, r1, log, k + |ws1|);
    assert StepConsume(p, r, log, k) == RestConsume(p.prims, i, r1, log, k + |ws1|);
  }

  lemma SourcesOnly(s: State, i: Inst)
    ensures SourceAGenerate(s, i).Some? ==>
              SourceAGenerate(s, i).value.0 == s.(a := SourceAGenerate(s, i).value.0.a)
    ensures SourceBGenerate(s, i).Some? ==>
              SourceBGenerate(s, i).value.0 == s.(b := SourceBGenerate(s, i).value.0.b)
  {
    hide LogRead, Imm;
  }
}
