/** Initial data: instructions that store the bytes of a section, 8 at a time. */
module InitData {
  import opened Words
  import opened Wrappers
  import opened MemoryModel
  import opened MemoryLemmas
  import opened ZiskInst
  import opened ZiskOps
  import opened Machine
  import opened Traces
  import opened Transpiler
  import opened MicroExec
  import opened MicroRuns
  import opened Simulation

  /** Stores the constant v at address o. */
  function InitInst(o: u64, v: u64, s: u64): Inst {
    NewInst(s).SrcA(AImm, o, false).SrcB(BImm, v, false).WithOp(CopyB).IndWidth(8).StoreTo(TInd, 0, false, false).J(4, 4)
  }

  /** How many 8-byte words hold n bytes. */
  function WordsOf(n: nat): nat {
    (n + 7) / 8
  }

  /** Bytes 8k to 8k + 8 of the data, or what there is of them. */
  function Part(data: seq<u8>, k: nat): (r: seq<u8>)
    requires 8 * k <= |data|
    ensures |r| <= 8
  {
    if 8 * k + 8 <= |data| then data[8 * k..8 * k + 8] else data[8 * k..]
  }

  /** Word k of the data, as a little-endian number. */
  function WordAt(data: seq<u8>, k: nat): u64
    requires 8 * k <= |data|
  {
    PartBound(Part(data, k));
    LeValue(Part(data, k))
  }

  lemma {:induction false} Pow256Monotone(m: nat, n: nat)
    requires m <= n
    ensures Pow256(m) <= Pow256(n)
    decreases n
  {
    if m < n {
      Pow256Monotone(m, n - 1);
    }
  }

  lemma PartBound(part: seq<u8>)
    requires |part| <= 8
    ensures LeValue(part) < 0x1_0000_0000_0000_0000
  {
    hide Pow256, LeValue;
    Pow256Values();
    Pow256Monotone(|part|, 8);
  }

  // ---- emitting the instructions ----

  /** The first n words have their instructions. */
  ghost predicate Placed(insts: Insts, addr: nat, data: seq<u8>, next: nat, n: nat)
    requires 8 * n <= |data| + 7 && addr + 8 * n < 0x1_0000_0000_0000_0000 && next + 4 * n < 0x1_0000_0000_0000_0000
  {
    forall k :: 0 <= k < n ==> PlacedAt(insts, addr, data, next, k)
  }

  ghost predicate PlacedAt(insts: Insts, addr: nat, data: seq<u8>, next: nat, k: nat)
    requires 8 * k <= |data| && addr + 8 * k < 0x1_0000_0000_0000_0000 && next + 4 * k < 0x1_0000_0000_0000_0000
  {
    next + 4 * k in insts && insts[next + 4 * k] == InitInst(addr + 8 * k, WordAt(data, k), next + 4 * k)
  }

  lemma PlacedNext(insts: Insts, addr: nat, data: seq<u8>, next: nat, n: nat)
    requires 8 * n <= |data| && addr + 8 * n + 8 < 0x1_0000_0000_0000_0000 && next + 4 * n + 4 < 0x1_0000_0000_0000_0000
    requires 8 * n < |data| && Placed(insts, addr, data, next, n)
    ensures Placed(insts[next + 4 * n := InitInst(addr + 8 * n, WordAt(data, n), next + 4 * n)], addr, data, next, n + 1)
  {
    hide InitInst, WordAt;
    var after := insts[next + 4 * n := InitInst(addr + 8 * n, WordAt(data, n), next + 4 * n)];
    forall k | 0 <= k < n + 1
      ensures PlacedAt(after, addr, data, next, k)
    {
      if k < n {
        assert PlacedAt(insts, addr, data, next, k);
      }
    }
  }

  /** New instructions are 4 addresses apart. */
  ghost predicate AlignedKeys(before: Insts, after: Insts, from: int) {
    forall a :: a in after && a !in before ==> (a - from) % 4 == 0
  }

  lemma GenuineInit(insts: Insts, o: u64, v: u64, s: u64)
    ensures Genuine(insts) ==> Genuine(insts[s := InitInst(o, v, s)])
  {
    InitBuilt(o, v, s);
    hide InitInst, Built;
  }

  lemma InitBuilt(o: u64, v: u64, s: u64)
    ensures Built(InitInst(o, v, s), s)
  {
    hide Low32, High32;
  }

  method Emit(insts: Insts, o: u64, v: u64, s: u64) returns (r: Insts)
    ensures r == insts[s := InitInst(o, v, s)]
  {
    var zib := new ZiskInstBuilder(s);
    zib.SrcA(AImm, o, false);
    zib.SrcB(BImm, v, false);
    zib.SetOp(CopyB);
    zib.IndWidth(8);
    zib.Store(TInd, 0, false, false);
    zib.J(4, 4);
    r := insts[s := zib.i];
  }

  lemma {:induction false} LeValueStep(b: u8, rest: seq<u8>)
    ensures LeValue([b] + rest) == b + 256 * LeValue(rest)
  {
    assert ([b] + rest)[1..] == rest;
  }

  /** The last, incomplete word: its bytes are taken from the end, most significant first. */
  method TailWord(data: seq<u8>, k: nat) returns (v: u64)
    requires 8 * k < |data| < 8 * k + 8
    ensures v == WordAt(data, k)
  {
    var bytes := |data| - 8 * k;
    var from := 8 * k + bytes - 1;
    var w: nat := 0;
    for i := 0 to bytes
      invariant w == LeValue(data[|data| - i..])
    {
      LeValueStep(data[from - i], data[|data| - i..]);
      assert data[|data| - (i + 1)..] == [data[from - i]] + data[|data| - i..];
      w := w * 256 + data[from - i];
    }
    assert data[|data| - bytes..] == Part(data, k);
    PartBound(Part(data, k));
    v := w;
  }

  /** Emits one instruction for every 8 bytes, and one for the bytes that are left. */
  method AddZiskInitData(insts: Insts, next: u64, addr: u64, data: seq<u8>) returns (r: Insts, nextInitInstAddr: u64)
    requires addr + |data| + 8 < 0x1_0000_0000_0000_0000 && next + |data| + 8 < 0x1_0000_0000_0000_0000
    ensures nextInitInstAddr == next + 4 * WordsOf(|data|)
    ensures Placed(r, addr, data, next, WordsOf(|data|))
    ensures OnlyWithin(insts, r, next, nextInitInstAddr)
    ensures AlignedKeys(insts, r, next)
    ensures Genuine(insts) ==> Genuine(r)
  {
    hide InitInst, WordAt, Genuine;
    r, nextInitInstAddr := insts, next;
    var o := addr;
    var nd := |data| / 8;
    for k := 0 to nd
      invariant o == addr + 8 * k && nextInitInstAddr == next + 4 * k
      invariant Placed(r, addr, data, next, k) && OnlyWithin(insts, r, next, nextInitInstAddr)
      invariant AlignedKeys(insts, r, next) && (Genuine(insts) ==> Genuine(r))
    {
      WholeWord(data, k);
      PlacedNext(r, addr, data, next, k);
      GenuineInit(r, o, WordAt(data, k), nextInitInstAddr);
      var v := LeValue(data[8 * k..8 * k + 8]);
      r := Emit(r, o, v, nextInitInstAddr);
      nextInitInstAddr := nextInitInstAddr + 4;
      o := o + 8;
    }
    var bytes := addr + |data| - o;
    if bytes > 0 {
      PlacedNext(r, addr, data, next, nd);
      GenuineInit(r, o, WordAt(data, nd), nextInitInstAddr);
      var v := TailWord(data, nd);
      r := Emit(r, o, v, nextInitInstAddr);
      nextInitInstAddr := nextInitInstAddr + 4;
      o := o + bytes;
    }
  }

  lemma WholeWord(data: seq<u8>, k: nat)
    requires 8 * k + 8 <= |data|
    ensures LeValue(data[8 * k..8 * k + 8]) == WordAt(data, k)
  {
  }

  // ---- running them ----

  /** The bytes that are stored: the data, filled with zeros to a multiple of 8. */
  function Filled(data: seq<u8>, k: int): u8
    requires 0 <= k
  {
    if k < |data| then data[k] else 0
  }

  function FilledAt(addr: nat, data: seq<u8>, a: int): u8
    requires addr <= a
  {
    Filled(data, a - addr)
  }

  ghost function Image(addr: nat, data: seq<u8>, n: nat): map<int, u8> {
    map a | addr <= a < addr + 8 * n :: FilledAt(addr, data, a)
  }

  lemma {:induction false} LeBytesOfValue(bytes: seq<u8>, n: nat, j: nat)
    requires |bytes| <= n && j < n
    ensures LeBytes(LeValue(bytes), n)[j] == Filled(bytes, j)
    decreases j
  {
    if bytes == [] {
      ZeroBytes(n, j);
    } else {
      SplitByte(bytes[0], LeValue(bytes[1..]));
      var v := LeValue(bytes);
      assert v == bytes[0] + 256 * LeValue(bytes[1..]);
      hide LeValue;
      assert LeBytes(v, n) == [v % 256] + LeBytes(v / 256, n - 1);
      if j > 0 {
        LeBytesOfValue(bytes[1..], n - 1, j - 1);
      }
    }
  }

  lemma SplitByte(b: u8, v: nat)
    ensures (b + 256 * v) % 256 == b && (b + 256 * v) / 256 == v
  {
  }

  lemma {:induction false} ZeroBytes(n: nat, j: nat)
    requires j < n
    ensures LeBytes(0, n)[j] == 0
    decreases j
  {
    if j > 0 {
      ZeroBytes(n - 1, j - 1);
    }
  }

  /** Storing word k puts its bytes, and zeros after the end of the data, in place. */
  lemma WordImage(addr: nat, data: seq<u8>, k: nat, a: int, w: nat)
    requires 8 * k <= |data| && addr + 8 * k <= a < addr + 8 * k + 8 && w == 8
    ensures LeMap(addr + 8 * k, WordAt(data, k), w)[a] == FilledAt(addr, data, a)
  {
    var j := a - (addr + 8 * k);
    hide LeMap, LeBytes, LeValue;
    LeMapBytes(addr + 8 * k, WordAt(data, k), w, j);
    LeBytesOfValue(Part(data, k), w, j);
  }

  lemma ImageNext(b: map<int, u8>, addr: nat, data: seq<u8>, k: nat, w: nat)
    requires 8 * k <= |data| && w == 8
    ensures b + Image(addr, data, k) + LeMap(addr + 8 * k, WordAt(data, k), w) == b + Image(addr, data, k + 1)
  {
    hide LeMap, WordAt, FilledAt;
    var u := LeMap(addr + 8 * k, WordAt(data, k), w);
    forall a | addr + 8 * k <= a < addr + 8 * k + 8
      ensures u[a] == FilledAt(addr, data, a)
    {
      WordImage(addr, data, k, a, w);
    }
    var l, r := b + Image(addr, data, k) + u, b + Image(addr, data, k + 1);
    assert forall a :: a in l <==> a in r;
    assert forall a :: a in l ==> l[a] == r[a];
  }

  lemma InitInstRuns(prims: Prims, o: u64, v: u64, s: State, m: Option<Memory>)
    requires m == Write(s.mem, o, v, 8)
    ensures m.None? ==> Exec(prims, InitInst(o, v, s.pc), s).None?
    ensures m.Some? ==> Reaches(Exec(prims, InitInst(o, v, s.pc), s), s.regs, Wrap(s.pc + 4), m.value)
  {
    hide Imm, Exec, MicroExec.Stored, Write;
    WrapSmall(o);
    hide Wrap;
    var z0 := NewInst(s.pc);
    ImmediateA(z0, o, s);
    ImmediateB(z0.SrcA(AImm, o, false), v, s);
    var z := InitInst(o, v, s.pc);
    assert DirectA(s, z) == Some(o) && DirectB(s, z) == Some(v);
    ExecDirect(prims, z, s, o, v);
    var t := Called(s, CopyB, o, v);
    assert StoreAddr(t, z) == Wrap(o);
    StoreToMem(t, z, m);
  }

  /** The instructions of the data can be fetched. */
  ghost predicate FetchesData(rom: Rom, addr: nat, data: seq<u8>, next: nat, n: nat)
    requires 8 * n <= |data| + 7 && addr + 8 * n < 0x1_0000_0000_0000_0000 && next + 4 * n < 0x1_0000_0000_0000_0000
  {
    forall k :: 0 <= k < n ==> FetchedAs(rom, next + 4 * k, InitInst(addr + 8 * k, WordAt(data, k), next + 4 * k))
  }

  predicate WordAccessible(m: Memory, addr: nat, k: nat) {
    Accessible(m, addr + 8 * k, 8)
  }

  /** After n instructions: the first n words are in memory, and nothing else has changed. */
  ghost predicate DataStored(s: State, r: Option<State>, addr: nat, data: seq<u8>, n: nat) {
    && r.Some? && r.value.regs == s.regs && r.value.pc == s.pc + 4 * n
    && Bytes(r.value.mem) == Bytes(s.mem) + Image(addr, data, n)
    && SameLayout(s.mem, r.value.mem)
  }

  /** Executing the emitted instructions puts the data in memory, zero-fills up to the next multiple
      of 8 in length, changes no other byte and no register, and ends at the next free address; it
      panics exactly when some word lies outside the sections. */
  lemma {:induction false} InitDataRuns(p: Platform, s: State, addr: u64, data: seq<u8>, n: nat)
    requires addr + |data| + 8 < 0x1_0000_0000_0000_0000 && s.pc + |data| + 8 < 0x1_0000_0000_0000_0000
    requires n <= WordsOf(|data|) && FetchesData(p.rom, addr, data, s.pc, n)
    ensures Run(p, s, n).Some? <==> forall k :: 0 <= k < n ==> WordAccessible(s.mem, addr, k)
    ensures Run(p, s, n).Some? ==> DataStored(s, Run(p, s, n), addr, data, n)
  {
    hide Step, InitInst, WordAt, FetchedAs, Bytes, Image, SameLayout, Accessible;
    if n == 0 {
      NothingStored(s, addr, data);
    } else {
      var k := n - 1;
      InitDataRuns(p, s, addr, data, k);
      if Run(p, s, k).Some? {
        var t := Run(p, s, k).value;
        WordStored(p, s, t, addr, data, k);
      }
    }
  }

  lemma NothingStored(s: State, addr: nat, data: seq<u8>)
    ensures DataStored(s, Some(s), addr, data, 0)
  {
    assert Bytes(s.mem) + Image(addr, data, 0) == Bytes(s.mem);
    LayoutReflexive(s.mem);
  }

  lemma WordStored(p: Platform, s: State, t: State, addr: u64, data: seq<u8>, k: nat)
    requires 8 * k < |data| && addr + |data| + 8 < 0x1_0000_0000_0000_0000 && s.pc + |data| + 8 < 0x1_0000_0000_0000_0000
    requires DataStored(s, Some(t), addr, data, k)
    requires FetchedAs(p.rom, s.pc + 4 * k, InitInst(addr + 8 * k, WordAt(data, k), s.pc + 4 * k))
    ensures Step(p, t).Some? <==> WordAccessible(s.mem, addr, k)
    ensures Step(p, t).Some? ==> DataStored(s, Step(p, t), addr, data, k + 1)
  {
    hide Step, InitInst, WordAt, FetchedAs, Bytes, Image, SameLayout, Write, Exec, Accessible, LeMap;
    var o, v := addr + 8 * k, WordAt(data, k);
    var m := Write(t.mem, o, v, 8);
    StepAs(p, t, InitInst(o, v, t.pc));
    InitInstRuns(p.prims, o, v, t, m);
    WriteRefinesBytes(t.mem, o, v, 8);
    LayoutAccessible(s.mem, t.mem, o, 8);
    WrapSmall(t.pc + 4);
    hide Wrap;
    if m.Some? {
      ImageNext(Bytes(s.mem), addr, data, k, 8);
      LayoutTransitive(s.mem, t.mem, m.value);
    }
  }
}
