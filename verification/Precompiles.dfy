/** What precompiles and free-input calls read and leave, word by word. */
module Precompiles {
  import opened Words
  import opened Wrappers
  import opened MemoryModel
  import opened MemoryLemmas
  import opened ZiskInst
  import opened ZiskOps
  import opened Machine

  // ---- consecutive words ----

  /** Word j at addr is word from + j of the data. */
  predicate WordAt(m: Memory, addr: nat, data: seq<u64>, from: nat, j: nat) {
    && addr + 8 * j < 0x1_0000_0000_0000_0000 && from + j < |data|
    && Read(m, addr + 8 * j, 8) == Some(data[from + j])
  }

  /** n words of the data, from index from on, stand at addr. */
  ghost predicate WordsAt(m: Memory, addr: nat, data: seq<u64>, from: nat, n: nat) {
    forall j :: 0 <= j < n ==> WordAt(m, addr, data, from, j)
  }

  /** An access leaves room for the next address. */
  lemma NextAddress(m: Memory, addr: int)
    requires Accessible(m, addr, 8)
    ensures 0 <= addr && addr + 8 < 0x1_0000_0000_0000_0000
  {
  }

  lemma ReadInside(m: Memory, addr: u64)
    requires Read(m, addr, 8).Some?
    ensures addr + 8 < 0x1_0000_0000_0000_0000
  {
    ReadRefinesBytes(m, addr, 8);
    hide Read, Accessible;
    NextAddress(m, addr);
  }

  /** Reading finds the words that are there, and fails when one is missing. */
  lemma {:induction false} ReadWordsAt(m: Memory, addr: u64, data: seq<u64>, from: nat, n: nat)
    requires from + n <= |data|
    ensures ReadWords(m, addr, n) == Some(data[from..from + n]) <==> WordsAt(m, addr, data, from, n)
    ensures ReadWords(m, addr, n).Some? && n > 0 ==> addr + 8 * n < 0x1_0000_0000_0000_0000
  {
    hide Read;
    if n == 0 {
      assert data[from..from + 0] == [];
    } else {
      ReadWordsAt(m, addr, data, from, n - 1);
      WordsAtNext(m, addr, data, from, n - 1);
      hide WordsAt;
      var x, before := addr + 8 * (n - 1), data[from..from + (n - 1)];
      assert data[from..from + n] == before + [data[from + (n - 1)]];
      if ReadWords(m, addr, n - 1).Some? {
        assert x < 0x1_0000_0000_0000_0000 && Wrap(x) == x;
        LastWord(ReadWords(m, addr, n - 1).value, before, Read(m, x, 8), data[from + (n - 1)]);
        if Read(m, x, 8).Some? {
          ReadInside(m, x);
        }
        assert WordAt(m, addr, data, from, n - 1) <==> Read(m, x, 8) == Some(data[from + (n - 1)]);
      }
    }
  }

  lemma WordsAtNext(m: Memory, addr: nat, data: seq<u64>, from: nat, n: nat)
    ensures WordsAt(m, addr, data, from, n + 1) <==> WordsAt(m, addr, data, from, n) && WordAt(m, addr, data, from, n)
  {
    hide WordAt;
  }

  lemma LastWord(x: seq<u64>, y: seq<u64>, v: Option<u64>, w: u64)
    requires |x| == |y|
    ensures v.Some? ==> (x + [v.value] == y + [w] <==> x == y && v.value == w)
  {
    if v.Some? && x + [v.value] == y + [w] {
      assert (x + [v.value])[..|x|] == x && (y + [w])[..|y|] == y;
      assert (x + [v.value])[|x|] == v.value;
    }
  }

  // ---- input ----

  /** Parameter i has chunk words from index base + i * chunk of the data on; its address is pointer i,
      or b when there are no pointers. */
  ghost predicate ParameterAt(m: Memory, b: u64, pointers: seq<u64>, data: seq<u64>, base: nat, chunk: nat, i: nat) {
    (|pointers| > 0 ==> i < |pointers|) &&
    WordsAt(m, if |pointers| == 0 then b else pointers[i], data, base + i * chunk, chunk)
  }

  ghost predicate ParametersAt(m: Memory, b: u64, pointers: seq<u64>, data: seq<u64>, base: nat, chunk: nat, n: nat) {
    forall i :: 0 <= i < n ==> ParameterAt(m, b, pointers, data, base, chunk, i)
  }

  lemma ParametersNext(m: Memory, b: u64, pointers: seq<u64>, data: seq<u64>, base: nat, chunk: nat, n: nat)
    ensures ParametersAt(m, b, pointers, data, base, chunk, n + 1) <==>
            ParametersAt(m, b, pointers, data, base, chunk, n) && ParameterAt(m, b, pointers, data, base, chunk, n)
  {
    hide ParameterAt;
  }

  lemma {:induction false} ReadParametersAt(m: Memory, op: Op, b: u64, pointers: seq<u64>, data: seq<u64>, base: nat, chunk: nat, n: nat, end: nat)
    requires n <= Shape(op).1 && |pointers| == Shape(op).0 && chunk == Shape(op).2 && end == n * chunk && base + end <= |data|
    ensures ReadParameters(m, op, b, pointers, n) == Some(data[base..base + end]) <==>
            ParametersAt(m, b, pointers, data, base, chunk, n)
  {
    hide ReadWords, WordsAt;
    if n == 0 {
      assert data[base..base + end] == [];
    } else {
      var k := n - 1;
      assert end == k * chunk + chunk;
      ReadParametersAt(m, op, b, pointers, data, base, chunk, k, end - chunk);
      ParametersNext(m, b, pointers, data, base, chunk, k);
      hide ParametersAt;
      OneOrPointers(op);
      var from := if |pointers| == 0 then b else pointers[k];
      ReadWordsAt(m, from, data, base + k * chunk, chunk);
      assert data[base..base + end] == data[base..base + (end - chunk)] + data[base + (end - chunk)..base + end];
      if ReadParameters(m, op, b, pointers, k).Some? {
        Parts(ReadParameters(m, op, b, pointers, k).value, data[base..base + (end - chunk)],
              ReadWords(m, from, chunk), data[base + (end - chunk)..base + end]);
      }
    }
  }

  lemma Parts(x: seq<u64>, y: seq<u64>, v: Option<seq<u64>>, w: seq<u64>)
    requires |x| == |y|
    ensures v.Some? ==> (x + v.value == y + w <==> x == y && v.value == w)
  {
    if v.Some? && x + v.value == y + w {
      assert (x + v.value)[..|x|] == x && (y + w)[..|y|] == y;
      assert (x + v.value)[|x|..] == v.value && (y + w)[|y|..] == w;
    }
  }

  /** Without pointers there is one parameter. */
  lemma OneOrPointers(op: Op)
    ensures Shape(op).0 == 0 ==> Shape(op).1 <= 1
    ensures Shape(op).0 > 0 ==> Shape(op).1 <= Shape(op).0
  {
  }

  /** The input of each precompile, as it lies in memory: a block at b, or pointers at b and the
      parameters they point to. */
  ghost predicate InputAt(m: Memory, op: Op, b: u64, data: seq<u64>) {
    match op
    case Keccak => |data| == 25 && WordsAt(m, b, data, 0, 25)
    case Sha256 => |data| == 12 && WordsAt(m, b, data, 0, 12)
    case Secp256k1Dbl => |data| == 8 && WordsAt(m, b, data, 0, 8)
    case Arith256 =>
      && |data| == 17 && WordsAt(m, b, data, 0, 5)
      && WordsAt(m, data[0], data, 5, 4) && WordsAt(m, data[1], data, 9, 4) && WordsAt(m, data[2], data, 13, 4)
    case Arith256Mod =>
      && |data| == 21 && WordsAt(m, b, data, 0, 5)
      && WordsAt(m, data[0], data, 5, 4) && WordsAt(m, data[1], data, 9, 4)
      && WordsAt(m, data[2], data, 13, 4) && WordsAt(m, data[3], data, 17, 4)
    case Secp256k1Add =>
      && |data| == 18 && WordsAt(m, b, data, 0, 2) && WordsAt(m, data[0], data, 2, 8) && WordsAt(m, data[1], data, 10, 8)
    case _ => false
  }

  lemma LoadParts(m: Memory, op: Op, b: u64, data: seq<u64>)
    requires |data| == InputWords(op)
    ensures var (p, n, chunk) := Shape(op);
            LoadData(m, op, b) == Some(data) <==>
              WordsAt(m, b, data, 0, p) && ParametersAt(m, b, data[..p], data, p, chunk, n)
  {
    hide ReadWords, ReadParameters, WordsAt, ParametersAt, Shape;
    var (p, n, chunk) := Shape(op);
    ReadWordsAt(m, b, data, 0, p);
    assert data[0..0 + p] == data[..p];
    assert p + n * chunk == |data|;
    ReadParametersAt(m, op, b, data[..p], data, p, chunk, n, n * chunk);
    assert data == data[..p] + data[p..p + n * chunk];
    if ReadWords(m, b, p).Some? {
      var pointers := ReadWords(m, b, p).value;
      Parts(pointers, data[..p], ReadParameters(m, op, b, pointers, n), data[p..p + n * chunk]);
    }
  }

  lemma AllParameters(m: Memory, b: u64, pointers: seq<u64>, data: seq<u64>, base: nat, chunk: nat)
    ensures ParametersAt(m, b, pointers, data, base, chunk, 1) <==> ParameterAt(m, b, pointers, data, base, chunk, 0)
    ensures ParametersAt(m, b, pointers, data, base, chunk, 2) <==>
            ParametersAt(m, b, pointers, data, base, chunk, 1) && ParameterAt(m, b, pointers, data, base, chunk, 1)
    ensures ParametersAt(m, b, pointers, data, base, chunk, 3) <==>
            ParametersAt(m, b, pointers, data, base, chunk, 2) && ParameterAt(m, b, pointers, data, base, chunk, 2)
    ensures ParametersAt(m, b, pointers, data, base, chunk, 4) <==>
            ParametersAt(m, b, pointers, data, base, chunk, 3) && ParameterAt(m, b, pointers, data, base, chunk, 3)
  {
    hide ParameterAt;
    ParametersNext(m, b, pointers, data, base, chunk, 1);
    ParametersNext(m, b, pointers, data, base, chunk, 2);
    ParametersNext(m, b, pointers, data, base, chunk, 3);
  }

  /** Loading gets exactly this input. */
  lemma LoadsInput(m: Memory, op: Op, b: u64, data: seq<u64>)
    requires op.InputSize() > 0
    ensures LoadData(m, op, b) == Some(data) <==> InputAt(m, op, b, data)
  {
    hide WordsAt, ParametersAt, LoadData;
    if |data| == InputWords(op) {
      LoadParts(m, op, b, data);
      var (p, n, chunk) := Shape(op);
      AllParameters(m, b, data[..p], data, p, chunk);
      assert WordsAt(m, b, data, 0, 0) by { NoWords(m, b, data); }
    }
  }

  lemma NoWords(m: Memory, b: u64, data: seq<u64>)
    ensures WordsAt(m, b, data, 0, 0)
  {
  }

  // ---- results ----

  /** Byte k of consecutive little-endian words. */
  function WordByte(ws: seq<u64>, k: int): u8
    requires 0 <= k < 8 * |ws|
  {
    ws[k / 8] / Pow256(k % 8) % 256
  }

  function WordByteAt(addr: nat, ws: seq<u64>, a: int): u8
    requires addr <= a < addr + 8 * |ws|
  {
    WordByte(ws, a - addr)
  }

  /** Words stored from an address on, byte by byte. */
  ghost function WordMap(addr: nat, ws: seq<u64>): map<int, u8> {
    map a | addr <= a < addr + 8 * |ws| :: WordByteAt(addr, ws, a)
  }

  lemma StoredByte(addr: nat, v: u64, a: int, width: nat)
    requires addr <= a < addr + 8 && width == 8
    ensures LeMap(addr, v, width)[a] == v / Pow256(a - addr) % 256
  {
    LeMapDigit(addr, v, width, a - addr);
  }

  lemma WordMapNext(b: map<int, u8>, addr: nat, ws: seq<u64>, v: u64, width: nat)
    requires width == 8
    ensures b + WordMap(addr, ws) + LeMap(addr + 8 * |ws|, v, width) == b + WordMap(addr, ws + [v])
  {
    hide LeMap, Pow256, WordByteAt;
    var n, u, more := |ws|, LeMap(addr + 8 * |ws|, v, width), ws + [v];
    forall a | addr <= a < addr + 8 * n + 8
      ensures if a < addr + 8 * n then WordByteAt(addr, more, a) == WordByteAt(addr, ws, a) else u[a] == WordByteAt(addr, more, a)
    {
      if a < addr + 8 * n {
        SameWordByte(addr, ws, v, a);
      } else {
        StoredByte(addr + 8 * n, v, a, width);
        LastWordByte(addr, ws, v, a);
      }
    }
    var l, r := b + WordMap(addr, ws) + u, b + WordMap(addr, more);
    assert forall a :: a in l <==> a in r;
    assert forall a :: a in l ==> l[a] == r[a];
  }

  lemma SameWordByte(addr: nat, ws: seq<u64>, v: u64, a: int)
    requires addr <= a < addr + 8 * |ws|
    ensures WordByteAt(addr, ws + [v], a) == WordByteAt(addr, ws, a)
  {
    assert (a - addr) / 8 < |ws|;
  }

  lemma LastWordByte(addr: nat, ws: seq<u64>, v: u64, a: int)
    requires addr + 8 * |ws| <= a < addr + 8 * |ws| + 8
    ensures WordByteAt(addr, ws + [v], a) == v / Pow256(a - (addr + 8 * |ws|)) % 256
  {
    var k := a - addr;
    assert k / 8 == |ws| && k % 8 == a - (addr + 8 * |ws|);
  }

  /** Writing consecutive words changes just their bytes. */
  lemma {:induction false} WriteWordsBytes(m: Memory, addr: u64, ws: seq<u64>)
    requires WriteWords(m, addr, ws).Some?
    ensures Bytes(WriteWords(m, addr, ws).value) == Bytes(m) + WordMap(addr, ws)
    ensures ws != [] ==> addr + 8 * |ws| < 0x1_0000_0000_0000_0000
  {
    hide Write, Bytes, LeMap, Accessible;
    if ws == [] {
      assert Bytes(m) + WordMap(addr, ws) == Bytes(m);
    } else {
      hide WordMap;
      var n := |ws| - 1;
      WriteWordsBytes(m, addr, ws[..n]);
      var m1, x := WriteWords(m, addr, ws[..n]).value, addr + 8 * n;
      assert x < 0x1_0000_0000_0000_0000 && Wrap(x) == x;
      WriteRefinesBytes(m1, x, ws[n], 8);
      NextAddress(m1, x);
      WordMapNext(Bytes(m), addr, ws[..n], ws[n], 8);
      assert ws[..n] + [ws[n]] == ws;
    }
  }

  lemma WordMapDigit(b: map<int, u8>, addr: nat, ws: seq<u64>, k: nat, width: nat, j: nat)
    requires k < |ws| && width == 8 && j < width
    ensures LeAt(b + WordMap(addr, ws), addr + 8 * k, width) / Pow256(j) % 256 == ws[k] / Pow256(j) % 256
  {
    var full, a := b + WordMap(addr, ws), addr + 8 * k + j;
    hide WordMap, WordByteAt, Pow256, LeAt;
    WordPlace(addr, ws, k, j);
    WordMapAt(b, addr, ws, a);
    LeAtDigit(full, addr + 8 * k, width, j);
  }

  lemma WordMapAt(b: map<int, u8>, addr: nat, ws: seq<u64>, a: int)
    requires addr <= a < addr + 8 * |ws|
    ensures a in b + WordMap(addr, ws) && (b + WordMap(addr, ws))[a] == WordByteAt(addr, ws, a)
  {
    hide WordByteAt;
  }

  lemma WordPlace(addr: nat, ws: seq<u64>, k: nat, j: nat)
    requires k < |ws| && j < 8
    ensures WordByteAt(addr, ws, addr + 8 * k + j) == ws[k] / Pow256(j) % 256
  {
    var d := 8 * k + j;
    assert d / 8 == k && d % 8 == j;
  }

  /** Every word can be read back where it was stored. */
  lemma WordMapHas(b: map<int, u8>, addr: nat, ws: seq<u64>, k: nat, width: nat)
    requires k < |ws| && width == 8
    ensures LeAt(b + WordMap(addr, ws), addr + 8 * k, width) == ws[k]
  {
    Pow256Values();
    hide LeAt, WordMap, Pow256;
    LeAtBound(b + WordMap(addr, ws), addr + 8 * k, width);
    forall j: nat | j < width
      ensures LeAt(b + WordMap(addr, ws), addr + 8 * k, width) / Pow256(j) % 256 == ws[k] / Pow256(j) % 256
    {
      WordMapDigit(b, addr, ws, k, width, j);
    }
    SameDigits(LeAt(b + WordMap(addr, ws), addr + 8 * k, width), ws[k], width);
  }

  lemma {:induction false} SameDigits(x: nat, y: nat, n: nat)
    requires x < Pow256(n) && y < Pow256(n) && forall j :: 0 <= j < n ==> x / Pow256(j) % 256 == y / Pow256(j) % 256
    ensures x == y
    decreases n
  {
    if n > 0 {
      assert x / Pow256(0) % 256 == y / Pow256(0) % 256;
      forall j | 0 <= j < n - 1
        ensures x / 256 / Pow256(j) % 256 == y / 256 / Pow256(j) % 256
      {
        DropDigit(x, j + 1);
        DropDigit(y, j + 1);
      }
      SameDigits(x / 256, y / 256, n - 1);
    }
  }

  /** n words of the result, from word number from on. */
  function Computed(prims: Prims, op: Op, data: seq<u64>, from: nat, n: nat): seq<u64> {
    seq<u64>(n, k requires 0 <= k < n => prims.word(op, data, from + k))
  }

  /** What each precompile leaves in memory: its result over its block, or at its result pointers. A
      sha256 block keeps its last eight words. */
  ghost predicate Leaves(prims: Prims, op: Op, b: u64, data: seq<u64>, before: map<int, u8>, after: map<int, u8>)
    requires |data| == (op.InputSize() + 7) / 8
  {
    match op
    case Keccak => after == before + WordMap(b, Computed(prims, op, data, 0, 25))
    case Sha256 => after == before + WordMap(b, Computed(prims, op, data, 0, 4) + data[4..])
    case Secp256k1Dbl => after == before + WordMap(b, Computed(prims, op, data, 0, 8))
    case Arith256 =>
      after == before + WordMap(data[3], Computed(prims, op, data, 0, 4)) + WordMap(data[4], Computed(prims, op, data, 4, 4))
    case Arith256Mod => after == before + WordMap(data[4], Computed(prims, op, data, 0, 4))
    case Secp256k1Add => after == before + WordMap(data[0], Computed(prims, op, data, 0, 8))
    case _ => after == before
  }

  lemma {:induction false} ResultIs(prims: Prims, op: Op, data: seq<u64>, from: nat, n: nat)
    requires !op.Sha256?
    ensures ResultWords(prims, op, data, from, n) == Computed(prims, op, data, from, n)
  {
    if n > 0 {
      ResultIs(prims, op, data, from, n - 1);
    }
  }

  lemma {:induction false} Sha256Is(prims: Prims, data: seq<u64>, n: nat)
    requires n <= |data|
    ensures ResultWords(prims, Sha256, data, 0, n) ==
            if n <= 4 then Computed(prims, Sha256, data, 0, n) else Computed(prims, Sha256, data, 0, 4) + data[4..n]
  {
    if n > 0 {
      Sha256Is(prims, data, n - 1);
    }
  }

  /** Writing to one place. */
  lemma OneOutput(prims: Prims, op: Op, data: seq<u64>, m: Memory, addr: u64, from: nat, n: nat)
    requires WriteOutputs(prims, op, data, m, [(addr, from, n)]).Some?
    ensures Bytes(WriteOutputs(prims, op, data, m, [(addr, from, n)]).value) ==
            Bytes(m) + WordMap(addr, ResultWords(prims, op, data, from, n))
  {
    var outs: seq<(u64, nat, nat)> := [(addr, from, n)];
    assert outs[..0] == [];
    hide WriteWords, ResultWords, Bytes, WordMap;
    WriteWordsBytes(m, addr, ResultWords(prims, op, data, from, n));
  }

  lemma TwoOutputs(prims: Prims, op: Op, data: seq<u64>, m: Memory, addr: u64, from: nat, n: nat, addr': u64, from': nat, n': nat)
    requires WriteOutputs(prims, op, data, m, [(addr, from, n), (addr', from', n')]).Some?
    ensures Bytes(WriteOutputs(prims, op, data, m, [(addr, from, n), (addr', from', n')]).value) ==
            Bytes(m) + WordMap(addr, ResultWords(prims, op, data, from, n)) + WordMap(addr', ResultWords(prims, op, data, from', n'))
  {
    var first, second := (addr, from, n), (addr', from', n');
    assert [first, second][..1] == [first];
    OneOutput(prims, op, data, m, addr, from, n);
    var m1 := WriteOutputs(prims, op, data, m, [first]).value;
    hide WriteWords, ResultWords, Bytes, WordMap;
    assert WriteOutputs(prims, op, data, m, [first, second]) == WriteWords(m1, addr', ResultWords(prims, op, data, from', n'));
    WriteWordsBytes(m1, addr', ResultWords(prims, op, data, from', n'));
  }

  lemma OutputsLeave(prims: Prims, op: Op, b: u64, data: seq<u64>, m: Memory)
    requires op.InputSize() > 0 && |data| == InputWords(op)
    requires WriteOutputs(prims, op, data, m, Outputs(op, b, data)).Some?
    ensures Leaves(prims, op, b, data, Bytes(m), Bytes(WriteOutputs(prims, op, data, m, Outputs(op, b, data)).value))
  {
    hide WriteOutputs, ResultWords, Bytes, WordMap, Computed;
    match op
    case Keccak =>
      OneOutput(prims, op, data, m, b, 0, 25);
      ResultIs(prims, op, data, 0, 25);
    case Sha256 =>
      OneOutput(prims, op, data, m, b, 0, 12);
      Sha256Is(prims, data, 12);
      assert data[4..12] == data[4..];
    case Secp256k1Dbl =>
      OneOutput(prims, op, data, m, b, 0, 8);
      ResultIs(prims, op, data, 0, 8);
    case Arith256 =>
      TwoOutputs(prims, op, data, m, data[3], 0, 4, data[4], 4, 4);
      ResultIs(prims, op, data, 0, 4);
      ResultIs(prims, op, data, 4, 4);
    case Arith256Mod =>
      OneOutput(prims, op, data, m, data[4], 0, 4);
      ResultIs(prims, op, data, 0, 4);
    case Secp256k1Add =>
      OneOutput(prims, op, data, m, data[0], 0, 8);
      ResultIs(prims, op, data, 0, 8);
  }

  /** A precompile takes its input from memory, or when replaying from the log, and leaves its result,
      and changes nothing else but c, the flag and, when recording, the kept input. */
  lemma PrecompileEffect(prims: Prims, op: Op, s: State) returns (data: seq<u64>)
    requires op.InputSize() > 0 && Precompile(prims, op, s).Some?
    ensures s.b % 8 == 0 && |data| == (op.InputSize() + 7) / 8
    ensures if s.mode.ConsumeMemReads? then data == s.inputData else InputAt(s.mem, op, s.b, data)
    ensures var t := Precompile(prims, op, s).value;
            && Leaves(prims, op, s.b, data, Bytes(s.mem), Bytes(t.mem)) && SameLayout(s.mem, t.mem)
            && t == s.(mem := t.mem, c := 0, flag := false, inputData := if s.mode.GenerateMemReads? then data else s.inputData)
  {
    hide LoadData, InputAt, Leaves, WriteOutputs, Outputs, Bytes, SameLayout, InputWords;
    data := PrecompileInput(op, s).value;
    if !s.mode.ConsumeMemReads? {
      LoadsInput(s.mem, op, s.b, data);
    }
    OutputsLeave(prims, op, s.b, data, s.mem);
  }

  // ---- free input ----

  /** After a call with n results, and k of them asked for since: the word that is handed out. */
  ghost predicate HandsOut(s: State, words: seq<u64>, k: nat) {
    && s.fcall.resultSize == |words| <= 32 && s.fcall.resultGot == k + 1
    && s.fcall.results[..|words|] == words
    && s.mem.freeInput == if k < |words| then words[k] else 0
  }

  /** n result words of a call. */
  function Results(prims: Prims, id: u64, f: FcallContext, n: nat): seq<u64> {
    seq<u64>(n, k requires 0 <= k < n => prims.fcallWord(id, f.parameters, f.results, k))
  }

  lemma {:induction false} FcallWordsAre(prims: Prims, id: u64, f: FcallContext, n: nat)
    ensures FcallWords(prims, id, f, n) == Results(prims, id, f, n)
  {
    if n > 0 {
      FcallWordsAre(prims, id, f, n - 1);
    }
  }

  /** A call makes its first result word the free input and starts collecting parameters anew. It fails
      exactly when the called function reports an error. */
  lemma CallHandsOut(prims: Prims, s: State)
    requires !s.mode.ConsumeMemReads?
    ensures var n := prims.fcallSize(s.a, s.fcall.parameters);
            && (OpcFcall(prims, s).Some? <==> n >= 0)
            && (0 <= n <= 32 ==> HandsOut(OpcFcall(prims, s).value, Results(prims, s.a, s.fcall, n), 0))
            && (n >= 0 ==> OpcFcall(prims, s).value.fcall.parametersSize == 0 && OpcFcall(prims, s).value.c == s.b)
  {
    FcallWordsAre(prims, s.a, s.fcall, 32);
    hide FcallWords;
    var n := prims.fcallSize(s.a, s.fcall.parameters);
    if 0 <= n <= 32 {
      assert Results(prims, s.a, s.fcall, 32)[..n] == Results(prims, s.a, s.fcall, n);
    }
  }

  /** Asking for one more: the next word, or 0 after the last; then no more. Without results there is
      nothing to ask for. */
  lemma GetHandsOut(s: State, words: seq<u64>, k: nat)
    requires !s.mode.ConsumeMemReads? && HandsOut(s, words, k)
    ensures OpcFcallGet(s).Some? <==> words != [] && k < |words|
    ensures OpcFcallGet(s).Some? ==>
              && HandsOut(OpcFcallGet(s).value, words, k + 1)
              && OpcFcallGet(s).value.mode == s.mode && OpcFcallGet(s).value.c == s.b
  {
    if k + 1 < |words| {
      assert s.fcall.results[k + 1] == s.fcall.results[..|words|][k + 1];
    }
  }

  function Gets(s: State, k: nat): Option<State> {
    if k == 0 then Some(s)
    else
      var t :- Gets(s, k - 1);
      OpcFcallGet(t)
  }

  /** After a call with 1 to 32 results, get number k leaves word k as free input, the last one 0; one
      more fails. */
  lemma {:induction false} AllHandedOut(prims: Prims, s: State, k: nat)
    requires !s.mode.ConsumeMemReads? && 1 <= prims.fcallSize(s.a, s.fcall.parameters) <= 32
    ensures OpcFcall(prims, s).Some?
    ensures var n, t := prims.fcallSize(s.a, s.fcall.parameters), OpcFcall(prims, s).value;
            && (Gets(t, k).Some? <==> k <= n)
            && (k <= n ==> Gets(t, k).value.mem.freeInput == if k < n then prims.fcallWord(s.a, s.fcall.parameters, s.fcall.results, k) else 0)
  {
    hide OpcFcall, OpcFcallGet;
    CallHandsOut(prims, s);
    var n, t := prims.fcallSize(s.a, s.fcall.parameters), OpcFcall(prims, s).value;
    CallMode(prims, s);
    GetsHandOut(t, Results(prims, s.a, s.fcall, n), k);
  }

  lemma CallMode(prims: Prims, s: State)
    ensures OpcFcall(prims, s).Some? ==> OpcFcall(prims, s).value.mode == s.mode
  {
  }

  lemma {:induction false} GetsHandOut(s: State, words: seq<u64>, k: nat)
    requires !s.mode.ConsumeMemReads? && HandsOut(s, words, 0) && words != []
    ensures Gets(s, k).Some? <==> k <= |words|
    ensures Gets(s, k).Some? ==> HandsOut(Gets(s, k).value, words, k) && Gets(s, k).value.mode == s.mode
  {
    hide OpcFcallGet, HandsOut;
    if k > 0 {
      GetsHandOut(s, words, k - 1);
      if Gets(s, k - 1).Some? {
        GetHandsOut(Gets(s, k - 1).value, words, k - 1);
      }
    }
  }

  /** Collecting a parameters: b itself, or the words at b, behind those collected before, which stay. */
  lemma CollectsParameters(s: State)
    requires !s.mode.ConsumeMemReads?
    ensures OpcFcallParam(s).Some? <==>
              s.fcall.parametersSize + s.a < 32 && (s.a == 1 || ReadWords(s.mem, s.b, s.a).Some?)
    ensures OpcFcallParam(s).Some? ==>
              var t, p := OpcFcallParam(s).value, s.fcall.parametersSize;
              && t == s.(c := s.b, flag := false, fcall := t.fcall)
              && t.fcall == s.fcall.(parameters := t.fcall.parameters, parametersSize := p + s.a)
              && (forall i :: 0 <= i < 32 && !(p <= i < p + s.a) ==> t.fcall.parameters[i] == s.fcall.parameters[i])
              && (if s.a == 1 then t.fcall.parameters[p] == s.b else WordsAt(s.mem, s.b, t.fcall.parameters, p, s.a))
  {
    hide ReadWords;
    if OpcFcallParam(s).Some? && s.a != 1 {
      var t, p := OpcFcallParam(s).value, s.fcall.parametersSize;
      var ws := ReadWords(s.mem, s.b, s.a).value;
      assert t.fcall.parameters[p..p + s.a] == ws;
      ReadWordsAt(s.mem, s.b, t.fcall.parameters, p, s.a);
    }
  }
}
