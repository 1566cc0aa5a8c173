/** From the sections of an ELF file to a rom whose every instruction can be fetched. */
module Elf2Rom {
  import opened Words
  import opened Wrappers
  import opened MemoryModel
  import opened MemObject
  import opened ZiskInst
  import opened Machine
  import opened Riscv
  import opened Decoder
  import opened Transpiler
  import opened Simulation
  import opened Program
  import opened InitData
  import opened Bios
  import opened RomIndex
  import ChunkReplay

  /** A section with program data. */
  datatype ElfSection = ElfSection(addr: u64, bytes: seq<u8>, executable: bool, writable: bool) {
    /** Extra bytes are removed if the length is not a multiple of 4. */
    function Data(): (data: seq<u8>)
      ensures data <= bytes && |data| % 4 == 0 && |bytes| - |data| < 4
    {
      bytes[..|bytes| - |bytes| % 4]
    }

    predicate IsCode() {
      addr != 0 && executable
    }

    /** Writable data in RAM is only initialised; all other sections are read-only data as well. */
    predicate IsRam() {
      addr != 0 && writable && RAM_ADDR <= addr && addr + |Data()| <= RAM_ADDR + RAM_SIZE
    }

    function Code(): seq<u32> {
      CodeVector(Data())
    }
  }

  /** Little-endian 32-bit words. */
  function CodeVector(data: seq<u8>): (r: seq<u32>)
    requires |data| % 4 == 0
    ensures |r| == |data| / 4
  {
    if data == [] then []
    else
      Pow256Values();
      CodeVector(data[..|data| - 4]) + [LeValue(data[|data| - 4..])]
  }

  function OfBytes(b0: nat, b1: nat, b2: nat, b3: nat): nat {
    b0 + 0x100 * b1 + 0x1_0000 * b2 + 0x100_0000 * b3
  }

  lemma LeWord(part: seq<u8>)
    requires |part| == 4
    ensures LeValue(part) == OfBytes(part[0], part[1], part[2], part[3])
  {
    assert part[1..][1..] == part[2..] && part[2..][1..] == part[3..] && part[3..][1..] == [];
    assert LeValue(part[3..]) == part[3] + 256 * LeValue([]);
    assert LeValue(part[2..]) == part[2] + 256 * LeValue(part[3..]);
    assert LeValue(part[1..]) == part[1] + 256 * LeValue(part[2..]);
  }

  /** Bytes 4k to 4k + 3 as a number, the first byte lowest. */
  predicate WordIs(data: seq<u8>, k: nat, w: u32) {
    4 * k + 4 <= |data| && w == OfBytes(data[4 * k], data[4 * k + 1], data[4 * k + 2], data[4 * k + 3])
  }

  /** Each word has its four bytes, the first of them lowest. */
  lemma {:induction false} CodeWord(data: seq<u8>, k: nat)
    requires |data| % 4 == 0 && 4 * k < |data|
    ensures WordIs(data, k, CodeVector(data)[k])
    decreases |data|
  {
    var n := |data| - 4;
    hide LeValue, OfBytes;
    if 4 * k == n {
      LeWord(data[n..]);
    } else {
      CodeWord(data[..n], k);
    }
  }

  /** The bytes of an instruction's encoding stand at index k. */
  predicate EncodedAt(data: seq<u8>, k: nat, i: RvInst)
    requires Canonical(i) && 4 * k + 4 <= |data|
  {
    var e := Encode(i);
    && data[4 * k] == e % 0x100 && data[4 * k + 1] == e / 0x100 % 0x100
    && data[4 * k + 2] == e / 0x1_0000 % 0x100 && data[4 * k + 3] == e / 0x100_0000
  }

  lemma BytesOf(e: nat)
    ensures e == e % 0x100 + 0x100 * (e / 0x100 % 0x100) + 0x1_0000 * (e / 0x1_0000 % 0x100) + 0x100_0000 * (e / 0x100_0000)
  {
    assert e / 0x1_0000 == e / 0x100 / 0x100 && e / 0x100_0000 == e / 0x1_0000 / 0x100;
  }

  /** Reading code. A section that holds the little-endian encodings of some instructions is read as
      these instructions, in this order. */
  lemma SectionIsRead(s: ElfSection, section: seq<RvInst>)
    requires |s.Data()| == 4 * |section| && forall k :: 0 <= k < |section| ==> Canonical(section[k])
    requires forall k :: 0 <= k < |section| ==> EncodedAt(s.Data(), k, section[k])
    ensures DecodeAll(s.Code()).Some? && Instructions(s.Code()) == section && InScope(s.Code())
  {
    hide Canonical, Encode, DecodeAll, Instructions, InScope;
    forall k | 0 <= k < |section|
      ensures s.Code()[k] == Encode(section[k])
    {
      assert EncodedAt(s.Data(), k, section[k]);
      CodeWord(s.Data(), k);
      BytesOf(Encode(section[k]));
    }
    EncodedSection(section, s.Code());
  }

  // ---- data items ----

  /** The writable sections, in order. */
  function RamItems(sections: seq<ElfSection>): seq<Piece> {
    if sections == [] then []
    else
      var last := sections[|sections| - 1];
      RamItems(sections[..|sections| - 1]) + (if last.IsRam() then [Piece(last.addr, last.Data())] else [])
  }

  /** Index of the first read-only piece that ends at addr, or the number of pieces. */
  function FirstBefore(ro: seq<Piece>, addr: int): (i: nat)
    ensures i <= |ro|
    ensures i < |ro| ==> ro[i].start + |ro[i].bytes| == addr
    ensures forall j :: 0 <= j < i ==> ro[j].start + |ro[j].bytes| != addr
  {
    if ro == [] then 0
    else if ro[0].start + |ro[0].bytes| == addr then 0
    else 1 + FirstBefore(ro[1..], addr)
  }

  /** A piece continues the one that ends where it starts. */
  function AddRo(ro: seq<Piece>, addr: u64, data: seq<u8>): seq<Piece> {
    var i := FirstBefore(ro, addr);
    if i < |ro| then ro[i := Piece(ro[i].start, ro[i].bytes + data)] else ro + [Piece(addr, data)]
  }

  /** The read-only data: every section that is not initialised RAM. */
  function RoItems(sections: seq<ElfSection>): seq<Piece> {
    if sections == [] then []
    else
      var last := sections[|sections| - 1];
      var before := RoItems(sections[..|sections| - 1]);
      if last.addr == 0 || last.IsRam() then before else AddRo(before, last.addr, last.Data())
  }

  /** How many instructions store the first n items. */
  function TotalWords(items: seq<Piece>, n: nat): nat
    requires n <= |items|
  {
    if n == 0 then 0 else TotalWords(items, n - 1) + WordsOf(|items[n - 1].bytes|)
  }

  /** Where the instructions of item n start. */
  function ItemAddress(items: seq<Piece>, n: nat): nat
    requires n <= |items|
  {
    ROM_ENTRY + 8 + 4 * TotalWords(items, n)
  }

  lemma {:induction false} TotalWordsPrefix(items: seq<Piece>, more: seq<Piece>, n: nat)
    requires n <= |items|
    ensures TotalWords(items + more, n) == TotalWords(items, n)
  {
    if n > 0 {
      TotalWordsPrefix(items, more, n - 1);
    }
  }

  lemma {:induction false} TotalWordsMonotone(items: seq<Piece>, m: nat, n: nat)
    requires m <= n <= |items|
    ensures TotalWords(items, m) <= TotalWords(items, n)
    decreases n
  {
    if m < n {
      TotalWordsMonotone(items, m, n - 1);
    }
  }

  lemma WordsBound(n: nat)
    ensures 8 * WordsOf(n) <= n + 7 && n <= 8 * WordsOf(n)
  {
  }

  // ---- what is kept when more is added ----

  lemma CodeKept(before: Insts, after: Insts, addr: u64, code: seq<RvInst>, from: int, to: int)
    requires AddressOf(addr, |code|) < 0x1_0000_0000_0000_0000 && Translated(before, addr, code)
    requires OnlyWithin(before, after, from, to) && (to <= addr || AddressOf(addr, |code|) <= from)
    ensures Translated(after, addr, code)
  {
    hide MicroOps;
    forall k | 0 <= k < |code|
      ensures TranslatedAt(after, addr + 4 * k, code[k])
    {
      assert TranslatedAt(before, addr + 4 * k, code[k]);
      MicroOpsPlace(code[k], addr + 4 * k);
    }
  }

  ghost predicate ItemPlaced(insts: Insts, item: Piece, next: nat) {
    && item.start + |item.bytes| + 8 < 0x1_0000_0000_0000_0000 && next + |item.bytes| + 8 < 0x1_0000_0000_0000_0000
    && (WordsBound(|item.bytes|); Placed(insts, item.start, item.bytes, next, WordsOf(|item.bytes|)))
  }

  lemma ItemKept(before: Insts, after: Insts, item: Piece, next: nat, from: int, to: int)
    requires ItemPlaced(before, item, next) && OnlyWithin(before, after, from, to)
    requires to <= next || next + 4 * WordsOf(|item.bytes|) <= from
    ensures ItemPlaced(after, item, next)
  {
    hide InitInst, WordAt;
    WordsBound(|item.bytes|);
    forall k | 0 <= k < WordsOf(|item.bytes|)
      ensures PlacedAt(after, item.start, item.bytes, next, k)
    {
      assert PlacedAt(before, item.start, item.bytes, next, k);
    }
  }

  /** All items have their instructions, one after the other. */
  ghost predicate ItemsPlaced(insts: Insts, items: seq<Piece>) {
    forall j :: 0 <= j < |items| ==> ItemPlaced(insts, items[j], ItemAddress(items, j))
  }

  lemma ItemsKept(before: Insts, after: Insts, items: seq<Piece>, from: int, to: int)
    requires ItemsPlaced(before, items) && OnlyWithin(before, after, from, to)
    requires to <= ROM_ENTRY || ItemAddress(items, |items|) <= from
    ensures ItemsPlaced(after, items)
  {
    hide ItemPlaced, OnlyWithin, ItemAddress;
    forall j | 0 <= j < |items|
      ensures ItemPlaced(after, items[j], ItemAddress(items, j))
    {
      AddressOrder(items, j);
      ItemKept(before, after, items[j], ItemAddress(items, j), from, to);
    }
  }

  lemma AddressOrder(items: seq<Piece>, j: nat)
    requires j < |items|
    ensures ROM_EXIT < ItemAddress(items, j)
    ensures ItemAddress(items, j) + 4 * WordsOf(|items[j].bytes|) <= ItemAddress(items, |items|)
  {
    TotalWordsMonotone(items, j + 1, |items|);
    assert TotalWords(items, j + 1) == TotalWords(items, j) + WordsOf(|items[j].bytes|);
    hide WordsOf, TotalWords;
  }

  lemma AddressMore(items: seq<Piece>, item: Piece, j: nat)
    requires j <= |items|
    ensures ItemAddress(items + [item], j) == ItemAddress(items, j)
  {
    TotalWordsPrefix(items, [item], j);
  }

  lemma AddressNext(items: seq<Piece>, item: Piece)
    ensures ItemAddress(items + [item], |items| + 1) == ItemAddress(items, |items|) + 4 * WordsOf(|item.bytes|)
  {
    TotalWordsPrefix(items, [item], |items|);
    assert (items + [item])[|items|] == item;
    hide WordsOf;
  }

  lemma ItemsMore(insts: Insts, items: seq<Piece>, item: Piece)
    requires ItemsPlaced(insts, items) && ItemPlaced(insts, item, ItemAddress(items, |items|))
    ensures ItemsPlaced(insts, items + [item])
  {
    hide ItemPlaced, ItemAddress;
    var more := items + [item];
    forall j | 0 <= j < |more|
      ensures ItemPlaced(insts, more[j], ItemAddress(more, j))
    {
      AddressMore(items, item, j);
      assert more[j] == if j < |items| then items[j] else item;
    }
  }

  /** Keys are in range, and aligned below the program. */
  ghost predicate KeysOk(insts: Insts) {
    forall a :: a in insts ==> KeyOk(a)
  }

  predicate KeyOk(a: u64) {
    InRange(a) && (a < ROM_ADDR ==> Aligned(a))
  }

  /** A code section lies in the program area. */
  predicate CodePlace(s: ElfSection) {
    ROM_ADDR <= s.addr && s.addr + |s.Data()| <= ROM_ADDR_MAX
  }

  ghost predicate CodeInScope(s: ElfSection) {
    InScope(s.Code())
  }

  /** A code section does not touch the addresses from `from` to `to`. */
  predicate Clear(s: ElfSection, from: int, to: int) {
    s.IsCode() ==> to <= s.addr || s.addr + |s.Data()| <= from
  }

  /** The files the model covers: code sections in the program area, disjoint and without CSR
      accesses, and no section at the very end of the address space; and room for the start-up code
      below the program. */
  ghost predicate Regular(sections: seq<ElfSection>) {
    && (forall j :: 0 <= j < |sections| ==> sections[j].addr + |sections[j].bytes| + 8 < 0x1_0000_0000_0000_0000)
    && (forall j :: 0 <= j < |sections| && sections[j].IsCode() ==> CodePlace(sections[j]) && CodeInScope(sections[j]))
    && (forall i, j :: 0 <= i < j < |sections| && sections[j].IsCode() ==>
          Clear(sections[i], sections[j].addr, sections[j].addr + |sections[j].Data()|))
    && EntryAddress(sections) + 0x40 <= ROM_ADDR
  }

  /** All data that start-up code stores, in the order it does. */
  function Items(sections: seq<ElfSection>): seq<Piece> {
    RamItems(sections) + RoItems(sections)
  }

  /** Where the code that calls the program starts. */
  function EntryAddress(sections: seq<ElfSection>): nat {
    ItemAddress(Items(sections), |Items(sections)|)
  }

  ghost predicate CodeDone(insts: Insts, s: ElfSection) {
    s.IsCode() ==>
      && |Instructions(s.Code())| <= |s.Code()| && AddressOf(s.addr, |s.Code()|) < 0x1_0000_0000_0000_0000
      && Translated(insts, s.addr, Instructions(s.Code()))
  }

  ghost predicate AllCodeDone(insts: Insts, sections: seq<ElfSection>, n: nat)
    requires n <= |sections|
  {
    forall j :: 0 <= j < n ==> CodeDone(insts, sections[j])
  }

  ghost predicate EndsIn(insts: Insts) {
    ROM_ENTRY in insts && insts[ROM_ENTRY] == JumpOverEnd() && ROM_EXIT in insts && insts[ROM_EXIT] == EndInst()
  }

  // ---- the state of the rom while it is built ----

  /** The first n sections and the given items have their instructions. */
  ghost predicate Stage(insts: Insts, sections: seq<ElfSection>, n: nat, items: seq<Piece>)
    requires n <= |sections|
  {
    Genuine(insts) && KeysOk(insts) && EndsIn(insts) && AllCodeDone(insts, sections, n) && ItemsPlaced(insts, items)
  }

  ghost predicate AllClear(sections: seq<ElfSection>, n: nat, from: int, to: int)
    requires n <= |sections|
  {
    forall j :: 0 <= j < n ==> Clear(sections[j], from, to)
  }

  lemma CodeDoneKept(before: Insts, after: Insts, s: ElfSection, from: int, to: int)
    requires CodeDone(before, s) && OnlyWithin(before, after, from, to) && Clear(s, from, to)
    ensures CodeDone(after, s)
  {
    hide OnlyWithin, Translated, Instructions;
    if s.IsCode() {
      CodeKept(before, after, s.addr, Instructions(s.Code()), from, to);
    }
  }

  /** New instructions in a free range leave everything in place. */
  lemma StageKept(before: Insts, after: Insts, sections: seq<ElfSection>, n: nat, items: seq<Piece>, from: int, to: int)
    requires n <= |sections| && Stage(before, sections, n, items)
    requires OnlyWithin(before, after, from, to) && Genuine(after) && KeysOk(after)
    requires ItemAddress(items, |items|) <= from && AllClear(sections, n, from, to)
    ensures Stage(after, sections, n, items)
  {
    EndsKept(before, after, from, to);
    hide OnlyWithin, CodeDone, Genuine, KeysOk, ItemsPlaced, Clear, EndsIn;
    ItemsKept(before, after, items, from, to);
    forall j | 0 <= j < n
      ensures CodeDone(after, sections[j])
    {
      CodeDoneKept(before, after, sections[j], from, to);
    }
  }

  lemma EndsKept(before: Insts, after: Insts, from: int, to: int)
    requires EndsIn(before) && OnlyWithin(before, after, from, to) && ROM_EXIT < from
    ensures EndsIn(after)
  {
    hide JumpOverEnd, EndInst;
  }

  lemma KeysKept(before: Insts, after: Insts, from: int, to: int)
    requires KeysOk(before) && OnlyWithin(before, after, from, to)
    requires forall a: u64 :: from <= a < to && a in after && a !in before ==> KeyOk(a)
    ensures KeysOk(after)
  {
  }

  // ---- adding a section ----

  method ConvertVector(input: seq<u8>) returns (output: seq<u32>)
    requires |input| % 4 == 0
    ensures output == CodeVector(input) && forall k :: 0 <= k < |output| ==> WordIs(input, k, output[k])
  {
    output := [];
    for i := 0 to |input| / 4
      invariant output == CodeVector(input[..4 * i])
    {
      var word := input[..4 * (i + 1)];
      assert word[..|word| - 4] == input[..4 * i] && word[|word| - 4..] == input[4 * i..4 * i + 4];
      Pow256Values();
      output := output + [LeValue(input[4 * i..4 * i + 4])];
    }
    assert input[..4 * (|input| / 4)] == input;
    forall k | 0 <= k < |output|
      ensures WordIs(input, k, output[k])
    {
      CodeWord(input, k);
    }
  }

  /** Drops bytes from the end until whole words are left. */
  method WholeWords(section: ElfSection) returns (data: seq<u8>)
    ensures data == section.Data()
  {
    data := section.bytes;
    while |data| % 4 != 0
      invariant section.Data() <= data <= section.bytes
    {
      data := data[..|data| - 1];
    }
  }

  method AddCode(insts: Insts, s: ElfSection, data: seq<u8>) returns (r: Option<Insts>)
    requires s.IsCode() && CodePlace(s) && CodeInScope(s) && data == s.Data() && KeysOk(insts) && Genuine(insts)
    ensures r.Some? <==> DecodeAll(s.Code()).Some?
    ensures r.Some? ==> CodeDone(r.value, s) && KeysOk(r.value) && Genuine(r.value)
    ensures r.Some? ==> OnlyWithin(insts, r.value, s.addr, s.addr + |data|)
  {
    hide Genuine, Translated, Instructions, InScope, OnlyWithin, KeysOk, DecodeAll;
    var words := ConvertVector(data);
    assert AddressOf(s.addr, |words|) == s.addr + |data|;
    r := AddZiskCode(insts, s.addr, words);
    if r.Some? {
      KeysKept(insts, r.value, s.addr, s.addr + |data|);
    }
  }

  /** Searches the read-only pieces for one to continue. */
  method AddRoData(roData: seq<Piece>, addr: u64, data: seq<u8>) returns (r: seq<Piece>)
    ensures r == AddRo(roData, addr, data)
  {
    for i := 0 to |roData|
      invariant forall j :: 0 <= j < i ==> roData[j].start + |roData[j].bytes| != addr
    {
      if roData[i].start + |roData[i].bytes| == addr {
        return roData[i := Piece(roData[i].start, roData[i].bytes + data)];
      }
    }
    return roData + [Piece(addr, data)];
  }

  // ---- adding all of them ----

  /** Code sections lie above the start-up code. */
  lemma BelowClear(sections: seq<ElfSection>, n: nat, from: int, to: int)
    requires n <= |sections| && Regular(sections) && to <= ROM_ADDR
    ensures AllClear(sections, n, from, to)
  {
    hide CodeInScope, EntryAddress;
  }

  lemma SectionClear(sections: seq<ElfSection>, n: nat)
    requires n < |sections| && Regular(sections) && sections[n].IsCode()
    ensures AllClear(sections, n, sections[n].addr, sections[n].addr + |sections[n].Data()|)
    ensures CodePlace(sections[n]) && CodeInScope(sections[n])
  {
    hide CodeInScope, EntryAddress, Clear, CodePlace;
  }

  lemma StageCode(before: Insts, after: Insts, sections: seq<ElfSection>, n: nat, items: seq<Piece>)
    requires n < |sections| && Stage(before, sections, n, items) && Regular(sections) && sections[n].IsCode()
    requires CodeDone(after, sections[n]) && KeysOk(after) && Genuine(after)
    requires OnlyWithin(before, after, sections[n].addr, sections[n].addr + |sections[n].Data()|)
    requires ItemAddress(items, |items|) <= ROM_ADDR
    ensures Stage(after, sections, n + 1, items)
  {
    hide OnlyWithin, CodeDone, KeysOk, Genuine, ItemsPlaced, EndsIn, ItemAddress, AllClear, Regular, CodeInScope;
    SectionClear(sections, n);
    StageKept(before, after, sections, n, items, sections[n].addr, sections[n].addr + |sections[n].Data()|);
  }

  lemma StageOther(insts: Insts, sections: seq<ElfSection>, n: nat, items: seq<Piece>)
    requires n < |sections| && Stage(insts, sections, n, items) && !sections[n].IsCode()
    ensures Stage(insts, sections, n + 1, items)
  {
    hide KeysOk, Genuine, ItemsPlaced, EndsIn;
  }

  /** Adds the instructions of one data item behind those of the others. */
  method AddItem(insts: Insts, next: u64, item: Piece, ghost sections: seq<ElfSection>, ghost n: nat, ghost items: seq<Piece>)
    returns (r: Insts, nextInitInstAddr: u64)
    requires n <= |sections| && Stage(insts, sections, n, items) && Regular(sections)
    requires next == ItemAddress(items, |items|) && next + 4 * WordsOf(|item.bytes|) <= ROM_ADDR
    requires item.start + |item.bytes| + 8 < 0x1_0000_0000_0000_0000
    ensures Stage(r, sections, n, items + [item])
    ensures nextInitInstAddr == ItemAddress(items + [item], |items| + 1)
  {
    WordsBound(|item.bytes|);
    AddressNext(items, item);
    hide Stage, Regular, ItemAddress, InitInst, WordAt, Genuine, KeysOk;
    r, nextInitInstAddr := AddZiskInitData(insts, next, item.start, item.bytes);
    StageItem(insts, r, next, item, sections, n, items);
  }

  lemma ItemKeys(before: Insts, after: Insts, next: u64, to: u64)
    requires KeysOk(before) && OnlyWithin(before, after, next, to) && AlignedKeys(before, after, next)
    requires ROM_ENTRY <= next && next % 4 == 0 && to <= ROM_ADDR
    ensures KeysOk(after)
  {
    forall a: u64 | next <= a < to && a in after && a !in before
      ensures KeyOk(a)
    {
      assert (a - next) % 4 == 0;
    }
    hide OnlyWithin;
    KeysKept(before, after, next, to);
  }

  lemma {:induction false} AddressAligned(items: seq<Piece>)
    ensures ItemAddress(items, |items|) % 4 == 0 && ROM_EXIT < ItemAddress(items, |items|)
  {
  }

  lemma StageItem(before: Insts, after: Insts, next: u64, item: Piece, sections: seq<ElfSection>, n: nat, items: seq<Piece>)
    requires n <= |sections| && Stage(before, sections, n, items) && Regular(sections)
    requires next == ItemAddress(items, |items|) && next + 4 * WordsOf(|item.bytes|) <= ROM_ADDR
    requires ItemPlaced(after, item, next) && OnlyWithin(before, after, next, next + 4 * WordsOf(|item.bytes|))
    requires AlignedKeys(before, after, next) && (Genuine(before) ==> Genuine(after))
    ensures Stage(after, sections, n, items + [item])
  {
    hide OnlyWithin, CodeDone, KeysOk, Genuine, ItemPlaced, ItemAddress, EndsIn, Regular, AllClear, AlignedKeys, WordsOf;
    var to := next + 4 * WordsOf(|item.bytes|);
    AddressAligned(items);
    ItemKeys(before, after, next, to);
    BelowClear(sections, n, next, to);
    StageKept(before, after, sections, n, items, next, to);
    ItemsMore(after, items, item);
  }

  lemma ItemsNext(sections: seq<ElfSection>, n: nat)
    requires n < |sections|
    ensures var s, ram, ro := sections[n], RamItems(sections[..n]), RoItems(sections[..n]);
            && RamItems(sections[..n + 1]) == (if s.IsRam() then ram + [Piece(s.addr, s.Data())] else ram)
            && RoItems(sections[..n + 1]) == if s.addr == 0 || s.IsRam() then ro else AddRo(ro, s.addr, s.Data())
  {
    assert sections[..n + 1][..n] == sections[..n];
  }

  lemma {:induction false} RamItemsPrefix(sections: seq<ElfSection>, n: nat)
    requires n <= |sections|
    ensures RamItems(sections[..n]) <= RamItems(sections)
    decreases |sections|
  {
    if n < |sections| {
      var before := sections[..|sections| - 1];
      assert before[..n] == sections[..n];
      RamItemsPrefix(before, n);
    } else {
      assert sections[..n] == sections;
    }
  }

  lemma PrefixAddress(part: seq<Piece>, items: seq<Piece>)
    requires part <= items
    ensures ItemAddress(part, |part|) <= ItemAddress(items, |items|)
  {
    var rest := items[|part|..];
    assert items == part + rest;
    TotalWordsPrefix(part, rest, |part|);
    TotalWordsMonotone(items, |part|, |items|);
  }

  /** There is room for everything below the program. */
  lemma Room(sections: seq<ElfSection>, part: seq<Piece>)
    requires Regular(sections) && part <= Items(sections)
    ensures ItemAddress(part, |part|) + 0x40 <= ROM_ADDR
  {
    hide ItemAddress, Items;
    PrefixAddress(part, Items(sections));
  }

  ghost predicate AllDecode(sections: seq<ElfSection>, n: nat)
    requires n <= |sections|
  {
    forall j :: 0 <= j < n ==> Decodes(sections[j])
  }

  predicate Decodes(s: ElfSection) {
    s.addr != 0 && s.executable ==> DecodeAll(s.Code()).Some?
  }

  /** What is known after the first n sections. */
  ghost predicate Collected(insts: Insts, next: int, roData: seq<Piece>, sections: seq<ElfSection>, n: nat)
    requires n <= |sections|
  {
    var ram := RamItems(sections[..n]);
    Stage(insts, sections, n, ram) && next == ItemAddress(ram, |ram|) && roData == RoItems(sections[..n])
  }

  method AddSection(insts: Insts, next: u64, roData: seq<Piece>, ghost sections: seq<ElfSection>, ghost n: nat, s: ElfSection)
    returns (r: Option<Insts>, nextInitInstAddr: u64, ro: seq<Piece>)
    requires n < |sections| && s == sections[n] && Regular(sections) && Collected(insts, next, roData, sections, n)
    ensures r.Some? <==> Decodes(s)
    ensures r.Some? ==> Collected(r.value, nextInitInstAddr, ro, sections, n + 1)
  {
    hide Stage, Regular, ItemAddress, RamItems, RoItems, AddRo, CodeDone, DecodeAll;
    ItemsNext(sections, n);
    SectionRoom(sections, n);
    if s.addr == 0 {
      StageOther(insts, sections, n, RamItems(sections[..n]));
      return Some(insts), next, roData;
    }
    var data := WholeWords(s);
    var after := insts;
    if s.executable {
      SectionClear(sections, n);
      StageParts(insts, sections, n, RamItems(sections[..n]));
      var added := AddCode(insts, s, data);
      if added.None? {
        return None, next, roData;
      }
      after := added.value;
      StageCode(insts, after, sections, n, RamItems(sections[..n]));
    } else {
      StageOther(insts, sections, n, RamItems(sections[..n]));
    }
    if s.writable && RAM_ADDR <= s.addr && s.addr + |data| <= RAM_ADDR + RAM_SIZE {
      ro := roData;
      var more;
      more, nextInitInstAddr := AddItem(after, next, Piece(s.addr, data), sections, n + 1, RamItems(sections[..n]));
      r := Some(more);
    } else {
      nextInitInstAddr := next;
      ro := AddRoData(roData, s.addr, data);
      r := Some(after);
    }
  }

  lemma StageParts(insts: Insts, sections: seq<ElfSection>, n: nat, items: seq<Piece>)
    requires n <= |sections| && Stage(insts, sections, n, items)
    ensures Genuine(insts) && KeysOk(insts)
  {
  }

  lemma SectionRoom(sections: seq<ElfSection>, n: nat)
    requires n < |sections| && Regular(sections)
    ensures var ram, s := RamItems(sections[..n]), sections[n];
            && ItemAddress(ram, |ram|) <= ROM_ADDR
            && (s.IsRam() ==> ItemAddress(ram, |ram|) + 4 * WordsOf(|s.Data()|) <= ROM_ADDR)
            && s.addr + |s.Data()| + 8 < 0x1_0000_0000_0000_0000
  {
    hide ItemAddress, RamItems, RoItems, WordsOf;
    var ram, s := RamItems(sections[..n]), sections[n];
    RamItemsPrefix(sections, n);
    RamItemsPrefix(sections, n + 1);
    Room(sections, ram);
    ItemsNext(sections, n);
    Room(sections, RamItems(sections[..n + 1]));
    AddressNext(ram, Piece(s.addr, s.Data()));
  }

  ghost predicate PiecesInside(pieces: seq<Piece>) {
    forall j :: 0 <= j < |pieces| ==> pieces[j].start + |pieces[j].bytes| + 8 < 0x1_0000_0000_0000_0000
  }

  /** Joined or not, a read-only piece ends where its section ends. */
  lemma AddRoInside(ro: seq<Piece>, addr: u64, data: seq<u8>)
    requires PiecesInside(ro) && addr + |data| + 8 < 0x1_0000_0000_0000_0000
    ensures PiecesInside(AddRo(ro, addr, data))
  {
  }

  lemma {:induction false} RoInside(sections: seq<ElfSection>, n: nat)
    requires n <= |sections| && Regular(sections)
    ensures PiecesInside(RoItems(sections[..n]))
  {
    hide AddRo, Regular, RamItems, ItemAddress, PiecesInside;
    if n > 0 {
      var s := sections[n - 1];
      RoInside(sections, n - 1);
      SectionRoom(sections, n - 1);
      ItemsNext(sections, n - 1);
      AddRoInside(RoItems(sections[..n - 1]), s.addr, s.Data());
    } else {
      NoneInside();
    }
  }

  lemma NoneInside()
    ensures PiecesInside([])
  {
  }

  /** Stores all read-only pieces, behind the RAM data. */
  method AddRoItems(insts: Insts, next: u64, roData: seq<Piece>, ghost sections: seq<ElfSection>)
    returns (r: Insts, nextInitInstAddr: u64)
    requires Regular(sections) && Collected(insts, next, roData, sections, |sections|)
    ensures Stage(r, sections, |sections|, Items(sections)) && nextInitInstAddr == EntryAddress(sections)
  {
    hide Stage, Regular, ItemAddress, RamItems, RoItems, AddRo;
    ghost var ram := RamItems(sections);
    assert sections[..|sections|] == sections;
    RoInside(sections, |sections|);
    r, nextInitInstAddr := insts, next;
    assert ram + roData[..0] == ram;
    for i := 0 to |roData|
      invariant Stage(r, sections, |sections|, ram + roData[..i])
      invariant nextInitInstAddr == ItemAddress(ram + roData[..i], |ram| + i)
    {
      RoRoom(sections, roData, i);
      r, nextInitInstAddr := AddItem(r, nextInitInstAddr, roData[i], sections, |sections|, ram + roData[..i]);
      assert ram + roData[..i] + [roData[i]] == ram + roData[..i + 1];
    }
    assert roData[..|roData|] == roData;
  }

  lemma RoRoom(sections: seq<ElfSection>, roData: seq<Piece>, i: nat)
    requires Regular(sections) && roData == RoItems(sections) && i < |roData|
    ensures var items := RamItems(sections) + roData[..i];
            ItemAddress(items, |items|) + 4 * WordsOf(|roData[i].bytes|) <= ROM_ADDR
  {
    hide ItemAddress, RamItems, RoItems, Regular, WordsOf;
    var items := RamItems(sections) + roData[..i];
    assert items + [roData[i]] == Items(sections)[..|items| + 1];
    Room(sections, items + [roData[i]]);
    AddressNext(items, roData[i]);
  }

  /** Adds all sections, from the empty rom with its first and last instruction. */
  method AddSections(sections: seq<ElfSection>) returns (r: Option<Insts>, nextInitInstAddr: u64, roData: seq<Piece>)
    requires Regular(sections)
    ensures r.Some? <==> AllDecode(sections, |sections|)
    ensures r.Some? ==> Collected(r.value, nextInitInstAddr, roData, sections, |sections|)
  {
    hide Regular, Collected, Decodes;
    roData := [];
    r, nextInitInstAddr := AddEndJmp(map[], ROM_ENTRY);
    StartCollected(r.value, sections);
    for n := 0 to |sections|
      invariant r.Some? && AllDecode(sections, n) && Collected(r.value, nextInitInstAddr, roData, sections, n)
    {
      r, nextInitInstAddr, roData := AddSection(r.value, nextInitInstAddr, roData, sections, n, sections[n]);
      if r.None? {
        return;
      }
    }
  }

  lemma StartCollected(insts: Insts, sections: seq<ElfSection>)
    requires insts == map[][ROM_ENTRY := JumpOverEnd()][ROM_EXIT := EndInst()] && Genuine(insts)
    ensures Collected(insts, ROM_ENTRY + 8, [], sections, 0)
  {
    hide JumpOverEnd, EndInst, Genuine, CodeDone, ItemPlaced;
  }

  // ---- the finished rom ----

  ghost predicate CodeAt(rom: Rom, addr: u64, i: RvInst, k: nat)
    requires AddressOf(addr, k) < 0x1_0000_0000_0000_0000
  {
    Encodable(i) && Emitted(rom, i, AddressOf(addr, k))
  }

  ghost predicate CodeFetched(rom: Rom, s: ElfSection) {
    s.IsCode() ==>
      && AddressOf(s.addr, |Instructions(s.Code())|) < 0x1_0000_0000_0000_0000
      && forall k :: 0 <= k < |Instructions(s.Code())| ==> CodeAt(rom, s.addr, Instructions(s.Code())[k], k)
  }

  ghost predicate ItemFetched(rom: Rom, item: Piece, next: nat) {
    && item.start + |item.bytes| + 8 < 0x1_0000_0000_0000_0000 && next + |item.bytes| + 8 < 0x1_0000_0000_0000_0000
    && (WordsBound(|item.bytes|); FetchesData(rom, item.start, item.bytes, next, WordsOf(|item.bytes|)))
  }

  ghost predicate ItemsFetched(rom: Rom, items: seq<Piece>) {
    forall j :: 0 <= j < |items| ==> ItemFetched(rom, items[j], ItemAddress(items, j))
  }

  /** A rom for these sections: it fetches their code, the code that stores their data, and the code
      that calls and ends the program at address entry. */
  ghost predicate RomFor(rom: Rom, sections: seq<ElfSection>, entry: u64) {
    && (forall j :: 0 <= j < |sections| ==> CodeFetched(rom, sections[j]))
    && ItemsFetched(rom, Items(sections))
    && EntryAddress(sections) + 0x40 <= ROM_ADDR && FetchesBios(rom, EntryAddress(sections), entry)
    && FetchedAs(rom, ROM_ENTRY, JumpOverEnd())
    && ChunkReplay.WellBuilt(rom)
  }

  lemma CodeIsFetched(rom: Rom, insts: Insts, s: ElfSection)
    requires Fetches(rom, insts) && CodeDone(insts, s)
    ensures CodeFetched(rom, s)
  {
    hide Instructions, Encodable, TranslatedAt, Emitted, Fetches;
    if s.IsCode() {
      var code := Instructions(s.Code());
      InstructionsCount(s.Code());
      forall k | 0 <= k < |code|
        ensures CodeAt(rom, s.addr, code[k], k)
      {
        assert TranslatedAt(insts, s.addr + 4 * k, code[k]);
        TranslatedEmitted(rom, insts, s.addr + 4 * k, code[k]);
      }
    }
  }

  lemma ItemIsFetched(rom: Rom, insts: Insts, item: Piece, next: nat)
    requires Fetches(rom, insts) && ItemPlaced(insts, item, next)
    ensures ItemFetched(rom, item, next)
  {
    hide InitInst, WordAt, FetchedAs;
    WordsBound(|item.bytes|);
    forall k | 0 <= k < WordsOf(|item.bytes|)
      ensures FetchedAs(rom, next + 4 * k, InitInst(item.start + 8 * k, WordAt(item.bytes, k), next + 4 * k))
    {
      assert PlacedAt(insts, item.start, item.bytes, next, k);
      FetchesAt(rom, insts, next + 4 * k);
    }
  }

  lemma BiosIsFetched(rom: Rom, before: Insts, insts: Insts, base: u64, entry: u64)
    requires base + 0x40 < 0x1_0000_0000_0000_0000 && ROM_EXIT < base && Fetches(rom, insts)
    requires EndsIn(before) && SectionAdded(before, insts, base, entry)
    ensures FetchesBios(rom, base, entry) && FetchedAs(rom, ROM_ENTRY, JumpOverEnd())
  {
    hide BiosInst, JumpOverEnd, EndInst, FetchedAs;
    forall k | 0 <= k < 16
      ensures FetchedAs(rom, base + 4 * k, BiosInst(base, entry, k))
    {
      FetchesAt(rom, insts, base + 4 * k);
    }
    FetchesAt(rom, insts, ROM_ENTRY);
    FetchesAt(rom, insts, ROM_EXIT);
  }

  /** Some code section has an instruction, at a multiple of 4. */
  ghost predicate HasCode(sections: seq<ElfSection>) {
    exists j :: 0 <= j < |sections| && SomeCode(sections[j])
  }

  predicate SomeCode(s: ElfSection) {
    s.IsCode() && s.addr % 4 == 0 && Instructions(s.Code()) != []
  }

  lemma CodeKey(insts: Insts, s: ElfSection)
    requires CodeDone(insts, s) && SomeCode(s) && (s.IsCode() ==> CodePlace(s))
    ensures s.addr in insts && IsProgram(s.addr)
  {
    hide Instructions;
    assert TranslatedAt(insts, s.addr + 4 * 0, Instructions(s.Code())[0]);
    MicroOpsPlace(Instructions(s.Code())[0], s.addr);
    hide MicroOps;
  }

  lemma KeysSuffice(insts: Insts, sections: seq<ElfSection>)
    requires Regular(sections) && KeysOk(insts) && AllCodeDone(insts, sections, |sections|) && ROM_ENTRY in insts
    ensures BiosAligned(insts.Keys) && (HasCode(sections) ==> HasKeys(insts.Keys))
  {
    hide CodeDone, SomeCode, EntryAddress, CodePlace, CodeInScope;
    assert IsBios(ROM_ENTRY);
    if HasCode(sections) {
      var j :| 0 <= j < |sections| && SomeCode(sections[j]);
      CodeKey(insts, sections[j]);
    }
  }

  lemma RomFinished(rom: Rom, before: Insts, insts: Insts, sections: seq<ElfSection>, entry: u64)
    requires Regular(sections) && Stage(before, sections, |sections|, Items(sections))
    requires Stage(insts, sections, |sections|, Items(sections))
    requires SectionAdded(before, insts, EntryAddress(sections), entry)
    requires Fetches(rom, insts) && ChunkReplay.WellBuilt(rom)
    ensures RomFor(rom, sections, entry)
  {
    AddressAligned(Items(sections));
    hide CodeDone, CodeFetched, ItemPlaced, ItemFetched, Fetches, EndsIn, SectionAdded, FetchesBios, ItemAddress,
      ChunkReplay.WellBuilt, JumpOverEnd, FetchedAs, KeysOk, Genuine;
    forall j | 0 <= j < |sections|
      ensures CodeFetched(rom, sections[j])
    {
      CodeIsFetched(rom, insts, sections[j]);
    }
    var items := Items(sections);
    forall j | 0 <= j < |items|
      ensures ItemFetched(rom, items[j], ItemAddress(items, j))
    {
      ItemIsFetched(rom, insts, items[j], ItemAddress(items, j));
    }
    BiosIsFetched(rom, before, insts, EntryAddress(sections), entry);
  }

  /** The code around the program leaves all else in place. */
  lemma StageBios(before: Insts, insts: Insts, sections: seq<ElfSection>, entry: u64)
    requires Regular(sections) && Stage(before, sections, |sections|, Items(sections))
    requires SectionAdded(before, insts, EntryAddress(sections), entry) && (Genuine(before) ==> Genuine(insts))
    ensures Stage(insts, sections, |sections|, Items(sections))
  {
    hide BiosInst, Genuine, AllCodeDone, ItemsPlaced, ItemAddress, EndsIn;
    var base := EntryAddress(sections);
    AddressAligned(Items(sections));
    assert AlignedKeys(before, insts, base);
    ItemKeys(before, insts, base, base + 0x40);
    BelowClear(sections, |sections|, base, base + 0x40);
    StageKept(before, insts, sections, |sections|, Items(sections), base, base + 0x40);
  }

  /** Builds the rom of a program. It succeeds when all code decodes and there is some, and what it
      builds fetches everything the sections call for. */
  method Elf2Rom(sections: seq<ElfSection>, entry: u64) returns (r: Option<ZiskRom>)
    requires Regular(sections)
    ensures r.Some? ==> AllDecode(sections, |sections|) && RomFor(r.value.rom, sections, entry)
    ensures AllDecode(sections, |sections|) && HasCode(sections) ==> r.Some?
  {
    hide Regular, Stage, AllDecode, HasCode, RomFor, Fetches, SectionAdded, ChunkReplay.WellBuilt, Genuine;
    var collected, next, roData := AddSections(sections);
    if collected.None? {
      return None;
    }
    var insts;
    insts, next := AddRoItems(collected.value, next, roData, sections);
    ghost var before := insts;
    StageKeys(insts, sections);
    insts, next := AddEntryExitJmp(insts, next, entry);
    StageBios(before, insts, sections, entry);
    StageKeys(insts, sections);
    var rom := new ZiskRom(insts);
    var built := rom.BuildIndexes();
    if built.Panic? {
      return None;
    }
    RomFinished(rom.rom, before, insts, sections, entry);
    r := Some(rom);
  }

  lemma StageKeys(insts: Insts, sections: seq<ElfSection>)
    requires Regular(sections) && Stage(insts, sections, |sections|, Items(sections))
    ensures Genuine(insts) && BiosAligned(insts.Keys) && (HasCode(sections) ==> HasKeys(insts.Keys))
    ensures EntryAddress(sections) + 0x40 < 0x1_0000_0000_0000_0000
  {
    hide Regular, Genuine, KeysOk, AllCodeDone;
    KeysSuffice(insts, sections);
    Room(sections, Items(sections));
  }
}
