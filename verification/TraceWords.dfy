/** Which words a recording step logs, and in which order. */
module TraceWords {
  import opened Words
  import opened Wrappers
  import opened MemoryModel
  import opened MemoryLemmas
  import opened ZiskInst
  import opened ZiskOps
  import opened Machine
  import opened Precompiles

  /** The aligned words around an access, as memory holds them, the lower address first. */
  ghost predicate WordsAround(m: Memory, addr: u64, width: nat, words: seq<u64>) {
    var a := addr - addr % 8;
    words == if addr % 8 + width <= 8 then [OldWord(m, a)] else [OldWord(m, a), OldWord(m, a + 8)]
  }

  /** An operand is logged as its value if it is 8 bytes wide at a multiple of 4, and as the words
      around it otherwise. */
  ghost predicate OperandLog(m: Memory, addr: u64, width: nat, v: u64, words: seq<u64>) {
    && Read(m, addr, width) == Some(v)
    && if addr % 4 == 0 && width == 8 then words == [v] else WordsAround(m, addr, width, words)
  }

  /** A store logs the words around it before it changes them, unless it is 8 bytes wide at a multiple of 4. */
  ghost predicate StoreLog(m: Memory, addr: u64, width: nat, words: seq<u64>) {
    if addr % 4 == 0 && width == 8 then words == [] else WordsAround(m, addr, width, words)
  }

  lemma OperandLogged(m: Memory, addr: u64, width: nat)
    requires LogRead(m, addr, width).Some?
    ensures OperandLog(m, addr, width, LogRead(m, addr, width).value.0, LogRead(m, addr, width).value.1)
  {
    hide Read, ReadRequired, OldWord;
    if !FullAligned(addr, width) {
      LoggedWords(m, addr, width);
      ReadRequiredAgrees(m, addr, width);
    }
  }

  lemma StoreLogged(s: State, i: Inst)
    requires StoresToMemory(i) && StoreCGenerate(s, i).Some?
    ensures StoreLog(s.mem, StoreAddr(s, i), StoreWidth(i), StoreCGenerate(s, i).value.1)
  {
    hide Write, ReadRequired, OldWord, StoreAddr, StoreWidth, ValueToStore;
    var addr, width := StoreAddr(s, i), StoreWidth(i);
    if !FullAligned(addr, width) {
      LoggedWords(s.mem, addr, width);
    }
  }

  lemma CallLogged(prims: Prims, op: Op, s: State)
    requires s.mode.GenerateMemReads? && CallGenerate(prims, op, s).Some?
    ensures if op.InputSize() > 0 then InputAt(s.mem, op, s.b, CallGenerate(prims, op, s).value.1)
            else CallGenerate(prims, op, s).value.1 == []
  {
    hide Precompile, InputAt;
    if op.InputSize() > 0 {
      var data := PrecompileEffect(prims, op, s.(inputData := []));
      hide Leaves;
      hide Op.InputSize;
    }
  }

  /** The log of a step: operand a, operand b, the input of a precompile, and what the store changes,
      in this order; parts that do not access memory log nothing. */
  lemma StepLogs(p: Platform, s: State, i: Inst) returns (s1: State, s2: State, s3: State, wa: seq<u64>, wb: seq<u64>, wc: seq<u64>, wd: seq<u64>)
    requires s.mode.GenerateMemReads? && StepGenerate(p, s).Some? && GetInstruction(p.rom, s.pc) == Some(i)
    ensures StepGenerate(p, s).value.1 == wa + wb + wc + wd
    ensures s1 == s.(a := s1.a) && s2 == s1.(b := s2.b)
    ensures if i.aSrc.SrcMem? then OperandLog(s.mem, AddrA(s, i), 8, s1.a, wa) else wa == []
    ensures if MemoryB(i) then OperandLog(s.mem, AddrB(s1, i), WidthB(i), s2.b, wb) else wb == []
    ensures if i.op.InputSize() > 0 then InputAt(s.mem, i.op, s2.b, wc) else wc == []
    ensures CallGenerate(p.prims, i.op, s2) == Some((s3, wc))
    ensures if StoresToMemory(i) then StoreLog(s3.mem, StoreAddr(s3, i), StoreWidth(i), wd) else wd == []
  {
    hide GetInstruction, LogRead, DirectA, DirectB, CallGenerate, StoreCGenerate, OperandLog, StoreLog, InputAt, AddrA, AddrB, WidthB,
      StoreAddr, StoreWidth, Op.InputSize;
    var (s1', wa') := SourceAGenerate(s, i).value;
    s1, wa := s1', wa';
    if i.aSrc.SrcMem? { OperandLogged(s.mem, AddrA(s, i), 8); }
    var (s2', wb') := SourceBGenerate(s1, i).value;
    s2, wb := s2', wb';
    if MemoryB(i) { OperandLogged(s1.mem, AddrB(s1, i), WidthB(i)); }
    var (s3', wc') := CallGenerate(p.prims, i.op, s2).value;
    s3, wc := s3', wc';
    CallLogged(p.prims, i.op, s2);
    wd := StoreCGenerate(s3, i).value.1;
    if StoresToMemory(i) { StoreLogged(s3, i); } else { NoStoreLogged(s3, i); }
  }

  lemma NoStoreLogged(s: State, i: Inst)
    requires !StoresToMemory(i) && StoreCGenerate(s, i).Some?
    ensures StoreCGenerate(s, i).value.1 == []
  {
  }
}
