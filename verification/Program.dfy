/** Whole RISC-V programs: translated instruction by instruction, and simulated for any number of steps. */
module Program {
  import opened Words
  import opened Wrappers
  import opened MemoryModel
  import opened ZiskInst
  import opened Machine
  import opened Traces
  import opened Riscv
  import opened Decoder
  import opened RiscvMemory
  import opened Transpiler
  import opened Simulation

  /** Decoded instructions by address. */
  type Code = map<u64, RvInst>

  // ---- translation ----

  /** The instruction at index k of a section that starts at addr. */
  function AddressOf(addr: u64, k: nat): int {
    addr + 4 * k
  }

  /** All instructions of a section were translated to where they belong. */
  ghost predicate Translated(insts: Insts, addr: u64, code: seq<RvInst>)
    requires AddressOf(addr, |code|) < 0x1_0000_0000_0000_0000
  {
    forall k :: 0 <= k < |code| ==> TranslatedAt(insts, addr + 4 * k, code[k])
  }

  ghost predicate TranslatedAt(insts: Insts, s: u64, i: RvInst)
    requires s + 4 < 0x1_0000_0000_0000_0000
  {
    MicroOps(i, s).Some? && forall a :: a in MicroOps(i, s).value ==> a in insts && insts[a] == MicroOps(i, s).value[a]
  }

  /** Later instructions leave the code of earlier ones alone. */
  lemma AddedElsewhere(insts: Insts, s: u64, i: RvInst, s': u64, more: RvInst)
    requires s + 4 <= s' && s' + 4 < 0x1_0000_0000_0000_0000 && MicroOps(more, s').Some?
    requires TranslatedAt(insts, s, i)
    ensures TranslatedAt(insts + MicroOps(more, s').value, s, i)
  {
    MicroOpsPlace(i, s);
    MicroOpsPlace(more, s');
    hide MicroOps;
  }

  lemma AddedHere(insts: Insts, s: u64, i: RvInst)
    requires s + 4 < 0x1_0000_0000_0000_0000 && MicroOps(i, s).Some?
    ensures TranslatedAt(insts + MicroOps(i, s).value, s, i)
    ensures forall a :: a < s || s + 4 <= a ==> (a in insts + MicroOps(i, s).value <==> a in insts)
    ensures forall a :: a in insts && (a < s || s + 4 <= a) ==> (insts + MicroOps(i, s).value)[a] == insts[a]
  {
    MicroOpsPlace(i, s);
    hide MicroOps;
  }

  /** Translates decoded instructions one after the other. */
  method ConvertAll(insts: Insts, addr: u64, code: seq<RvInst>) returns (r: Option<Insts>)
    requires AddressOf(addr, |code|) < 0x1_0000_0000_0000_0000
    ensures r.None? ==> exists k :: 0 <= k < |code| && MicroOps(code[k], addr + 4 * k).None?
    ensures r.Some? ==> Translated(r.value, addr, code) && OnlyWithin(insts, r.value, addr, AddressOf(addr, |code|))
    ensures r.Some? && Genuine(insts) ==> Genuine(r.value)
  {
    hide MicroOps, TranslatedAt, Genuine;
    var ctx := new Riscv2ZiskContext(addr, insts);
    for k := 0 to |code|
      invariant ctx.s == AddressOf(addr, k) && Translated(ctx.insts, addr, code[..k])
      invariant OnlyWithin(insts, ctx.insts, addr, AddressOf(addr, k))
      invariant Genuine(insts) ==> Genuine(ctx.insts)
    {
      ghost var before := ctx.insts;
      var converted := ctx.Convert(code[k]);
      if converted.Panic? {
        return None;
      }
      AddedHere(before, addr + 4 * k, code[k]);
      if Genuine(before) { GenuineMore(before, code[k], addr + 4 * k); }
      forall j | 0 <= j < k
        ensures TranslatedAt(ctx.insts, addr + 4 * j, code[..k][j])
      {
        AddedElsewhere(before, addr + 4 * j, code[..k][j], addr + 4 * k, code[k]);
      }
    }
    assert code[..|code|] == code;
    return Some(ctx.insts);
  }

  // ---- decoding ----

  /** The instructions of a section: zero words have none, and later instructions move up. */
  function Instructions(words: seq<u32>): seq<RvInst> {
    if words == [] then []
    else
      var last := |words| - 1;
      Instructions(words[..last]) +
      (if words[last] != 0 && Decode(words[last]).Instruction? then [Decode(words[last]).i] else [])
  }

  ghost predicate InScope(words: seq<u32>) {
    forall k :: 0 <= k < |words| ==> words[k] != 0 ==> !Decode(words[k]).CsrAccess?
  }

  lemma {:induction false} InstructionsCount(words: seq<u32>)
    ensures |Instructions(words)| <= |words|
    ensures forall j :: 0 <= j < |Instructions(words)| ==> Encodable(Instructions(words)[j])
  {
    hide Decode, Encodable;
    if words != [] {
      var last := |words| - 1;
      InstructionsCount(words[..last]);
      if words[last] != 0 && Decode(words[last]).Instruction? {
        DecodedEncodable(words[last]);
      }
    }
  }

  lemma {:induction false} DecodedInstructions(words: seq<u32>)
    requires InScope(words) && DecodeAll(words).Some?
    ensures |DecodeAll(words).value| == |Instructions(words)|
    ensures forall j :: 0 <= j < |Instructions(words)| ==> DecodeAll(words).value[j] == Instruction(Instructions(words)[j])
  {
    hide Decode;
    if words != [] {
      var last := |words| - 1;
      assert words[..last] == words[..last];
      DecodedInstructions(words[..last]);
    }
  }

  /** Decodes and translates a code section: None when a word is not an instruction. */
  method AddZiskCode(insts: Insts, addr: u64, words: seq<u32>) returns (r: Option<Insts>)
    requires AddressOf(addr, |words|) < 0x1_0000_0000_0000_0000 && InScope(words)
    ensures r.Some? ==> |Instructions(words)| <= |words| && Translated(r.value, addr, Instructions(words))
    ensures r.Some? ==> OnlyWithin(insts, r.value, addr, AddressOf(addr, |words|))
    ensures r.Some? && Genuine(insts) ==> Genuine(r.value)
    ensures r.Some? <==> DecodeAll(words).Some?
  {
    hide Genuine, Decode, Translated, Instructions, InScope, Encodable;
    var decoded := RiscvInterpreter(words);
    if decoded.None? {
      return None;
    }
    InstructionsCount(words);
    DecodedInstructions(words);
    var code := [];
    for k := 0 to |decoded.value|
      invariant code == Instructions(words)[..k]
    {
      assert decoded.value[k] == Instruction(Instructions(words)[k]);
      code := code + [decoded.value[k].i];
    }
    assert code == Instructions(words);
    r := ConvertAll(insts, addr, code);
    if r.None? {
      var k :| 0 <= k < |code| && MicroOps(code[k], addr + 4 * k).None?;
      EncodableConverts(code[k], addr + 4 * k);
    }
  }

  lemma EncodableConverts(i: RvInst, s: u64)
    requires Encodable(i) && s + 4 < 0x1_0000_0000_0000_0000
    ensures MicroOps(i, s).Some?
  {
  }

  /** A section decodes when each of its words does or is zero. */
  lemma {:induction false} DecodesWhen(words: seq<u32>)
    ensures DecodeAll(words).Some? <==> forall k :: 0 <= k < |words| ==> words[k] == 0 || !Decode(words[k]).Invalid?
  {
    hide Decode;
    if words != [] {
      var last := |words| - 1;
      DecodesWhen(words[..last]);
      assert forall k :: 0 <= k < last ==> words[..last][k] == words[k];
    }
  }

  /** A zero word has no instruction, and what follows it moves up. */
  lemma {:induction false} ZeroDropped(x: seq<u32>, y: seq<u32>)
    ensures Instructions(x + [0] + y) == Instructions(x + y)
    decreases |y|
  {
    hide Decode;
    if y == [] {
      assert (x + [0] + y)[..|x|] == x && x + y == x;
    } else {
      var n := |y| - 1;
      ZeroDropped(x, y[..n]);
      assert (x + [0] + y)[..|x| + 1 + n] == x + [0] + y[..n];
      assert (x + y)[..|x| + n] == x + y[..n];
    }
  }

  /** Without zero words, instruction k of the section is the one its word k encodes. */
  lemma {:induction false} EncodedSection(section: seq<RvInst>, words: seq<u32>)
    requires |words| == |section|
    requires forall k :: 0 <= k < |section| ==> Canonical(section[k]) && words[k] == Encode(section[k])
    ensures DecodeAll(words).Some? && Instructions(words) == section && InScope(words)
  {
    hide Decode, Canonical, Encode;
    if section != [] {
      var last := |section| - 1;
      EncodedSection(section[..last], words[..last]);
      DecodeEncode(section[last]);
      EncodeNonZero(section[last]);
      assert section == section[..last] + [section[last]];
      forall k | 0 <= k < |words| && words[k] != 0
        ensures !Decode(words[k]).CsrAccess?
      {
        if k < last {
          assert words[..last][k] == words[k];
        }
      }
    }
  }

  /** No instruction is encoded as zero. */
  lemma EncodeNonZero(i: RvInst)
    requires Canonical(i)
    ensures Encode(i) != 0
  {
    DecodeEncode(i);
    hide Encode, Canonical;
    ZeroInvalid();
  }

  lemma ZeroInvalid()
    ensures Decode(0).Invalid?
  {
  }

  // ---- execution ----

  /** The code of a section, as a map. */
  ghost predicate Holds(code: Code, addr: u64, insts: seq<RvInst>)
    requires AddressOf(addr, |insts|) < 0x1_0000_0000_0000_0000
  {
    && (forall k :: 0 <= k < |insts| ==> AddressOf(addr, k) in code && code[AddressOf(addr, k)] == insts[k])
    && (forall pc :: pc in code ==> exists k :: 0 <= k < |insts| && pc == AddressOf(addr, k))
  }

  /** One step of the hart; outside the code, what happens is not specified. */
  ghost function RvStep(code: Code, h: Hart): Ends {
    if h.pc in code then Execute(h, code[h.pc]) else Environment
  }

  /** n steps, or how the run ended before. */
  ghost function RvRun(code: Code, h: Hart, n: nat): Ends {
    if n == 0 then Ends.Next(h)
    else
      var e := RvRun(code, h, n - 1);
      if e.Next? then RvStep(code, e.hart) else e
  }

  /** Instructions that are compiled correctly are executed on ordinary operands. */
  ghost predicate AllOrdinary(code: Code, h: Hart, n: nat) {
    n > 0 ==>
      AllOrdinary(code, h, n - 1) &&
      (RvRun(code, h, n - 1).Next? ==>
         var t := RvRun(code, h, n - 1).hart; t.pc in code ==> Ordinary(t, code[t.pc]))
  }

  /** How many micro-instructions the first n instructions take. */
  ghost function MicroCount(code: Code, h: Hart, n: nat): nat {
    if n == 0 then 0
    else
      var e := RvRun(code, h, n - 1);
      MicroCount(code, h, n - 1) + (if e.Next? && e.hart.pc in code then MicroSteps(code[e.hart.pc]) else 0)
  }

  /** Every instruction of the program was translated, and is fetched where it was put. */
  ghost predicate Compiled(rom: Rom, code: Code) {
    forall pc :: pc in code ==> Encodable(code[pc]) && Emitted(rom, code[pc], pc)
  }

  /** Compiler correctness, whole programs. Any run of n RISC-V steps is matched by a run of the
      emulator from the same pc, related at every instruction boundary; an access fault is matched
      by a panic. */
  lemma {:induction false} ProgramSimulated(p: Platform, code: Code, h: Hart, s: State, n: nat)
    requires Compiled(p.rom, code) && Related(h, s) && AllOrdinary(code, h, n)
    ensures Agrees(RvRun(code, h, n), Run(p, s, MicroCount(code, h, n)))
  {
    hide Related, Execute, Ordinary, Emitted, Step, Encodable;
    if n > 0 {
      ProgramSimulated(p, code, h, s, n - 1);
      var e, done := RvRun(code, h, n - 1), MicroCount(code, h, n - 1);
      if e.Next? && e.hart.pc in code {
        var t, i := Run(p, s, done).value, code[e.hart.pc];
        SamePc(e.hart, t);
        InstructionSimulated(p, i, e.hart, t);
        RunAdd(p, s, done, MicroSteps(i));
      }
    }
  }

  lemma SamePc(h: Hart, s: State)
    requires Related(h, s)
    ensures h.pc == s.pc
  {
  }

  /** A translated instruction is emitted, once its micro-instructions can be fetched. */
  lemma TranslatedEmitted(rom: Rom, insts: Insts, pc: u64, i: RvInst)
    requires pc + 4 < 0x1_0000_0000_0000_0000 && TranslatedAt(insts, pc, i) && Fetches(rom, insts)
    ensures Emitted(rom, i, pc)
  {
    hide MicroOps, FetchedAs;
    var ops := MicroOps(i, pc).value;
    forall a | a in ops
      ensures FetchedAs(rom, a, ops[a])
    {
      FetchesAt(rom, insts, a);
    }
  }

  /** A translated section is compiled, once its instructions can be fetched. */
  lemma SectionCompiled(rom: Rom, insts: Insts, addr: u64, section: seq<RvInst>, code: Code)
    requires AddressOf(addr, |section|) < 0x1_0000_0000_0000_0000 && Holds(code, addr, section)
    requires Translated(insts, addr, section) && Fetches(rom, insts)
    requires forall k :: 0 <= k < |section| ==> Encodable(section[k])
    ensures Compiled(rom, code)
  {
    hide TranslatedAt, Fetches, Emitted, Encodable;
    forall pc | pc in code
      ensures Encodable(code[pc]) && Emitted(rom, code[pc], pc)
    {
      var k :| 0 <= k < |section| && pc == AddressOf(addr, k);
      assert TranslatedAt(insts, addr + 4 * k, section[k]);
      TranslatedEmitted(rom, insts, pc, section[k]);
    }
  }
}
