/**
 * The emulator memory as a value: read sections, one write section and the free-input word.
 * Every access returns None where the program panics.
 */
module MemoryModel {
  import opened Words
  import opened Wrappers

  const ROM_ENTRY: u64 := 0x1000
  const ROM_EXIT: u64 := 0x1004
  const ROM_ADDR: u64 := 0x8000_0000
  const ROM_ADDR_MAX: u64 := 0x87FF_FFFF
  const INPUT_ADDR: u64 := 0x9000_0000
  const RAM_ADDR: u64 := 0xA000_0000
  const RAM_SIZE: u64 := 0x2000_0000
  const SYS_ADDR: u64 := RAM_ADDR
  const OUTPUT_ADDR: u64 := 0xA001_0000

  /** A section holds the bytes of [start, end); the tail from realEnd on is padding. */
  datatype MemSection = MemSection(start: u64, end: u64, realEnd: u64, buffer: seq<u8>) {
    /** Ends are multiples of 8, so every aligned word around a byte of the section is inside it. */
    predicate Ok() {
      && Sized()
      && start % 8 == 0 && end % 8 == 0
    }

    predicate Sized() {
      8 <= start && end == start + |buffer|
    }

    predicate Contains(addr: int, width: nat) {
      start <= addr && addr + width <= end
    }

    function Load(addr: int, width: nat): (r: nat)
      requires Sized() && Contains(addr, width)
      ensures r < Pow256(width)
    {
      LeValue(buffer[addr - start..addr - start + width])
    }

    function Splice(addr: int, bytes: seq<u8>): (s: MemSection)
      requires Sized() && Contains(addr, |bytes|)
      ensures (Ok() ==> s.Ok()) && s.Sized() && s.start == start && s.end == end && s.realEnd == realEnd
    {
      this.(buffer := buffer[..addr - start] + bytes + buffer[addr - start + |bytes|..])
    }
  }

  datatype RawMemory = RawMemory(readSections: seq<MemSection>, writeSection: MemSection, freeInput: u64) {
    /** Read sections sorted by address, all sections well formed and pairwise disjoint. */
    ghost predicate Valid() {
      && writeSection.Ok()
      && (forall i :: 0 <= i < |readSections| ==> readSections[i].Ok())
      && (forall i, j :: 0 <= i < j < |readSections| ==> readSections[i].end <= readSections[j].start)
      && (forall i :: 0 <= i < |readSections| ==> Apart(readSections[i], writeSection))
    }
  }

  predicate Apart(s: MemSection, t: MemSection) {
    s.end <= t.start || t.end <= s.start
  }

  type Memory = m: RawMemory | m.Valid()
    witness RawMemory([], MemSection(8, 16, 0, [0, 0, 0, 0, 0, 0, 0, 0]), 0)

  // ---- little-endian values ----

  function Pow256(n: nat): (r: nat)
    ensures r > 0
  {
    if n == 0 then 1 else 256 * Pow256(n - 1)
  }

  function LeValue(bytes: seq<u8>): (r: nat)
    ensures r < Pow256(|bytes|)
  {
    if bytes == [] then 0 else bytes[0] + 256 * LeValue(bytes[1..])
  }

  function LeBytes(v: nat, n: nat): (r: seq<u8>)
    ensures |r| == n
  {
    if n == 0 then [] else [v % 256] + LeBytes(v / 256, n - 1)
  }

  /** x >> 8 * n */
  function ShrBytes(x: nat, n: nat): nat {
    if n == 0 then x else ShrBytes(x / 256, n - 1)
  }

  /** x << 8 * n, without truncation */
  function ShlBytes(x: nat, n: nat): nat {
    if n == 0 then x else 256 * ShlBytes(x, n - 1)
  }

  /** The low n bytes of x. */
  function LowBytes(x: nat, n: nat): (r: nat)
    ensures r < Pow256(n)
  {
    if n == 0 then 0 else x % 256 + 256 * LowBytes(x / 256, n - 1)
  }

  predicate ValidWidth(width: int) {
    width == 1 || width == 2 || width == 4 || width == 8
  }

  lemma Pow256Values()
    ensures Pow256(1) == 0x100 && Pow256(2) == 0x1_0000 && Pow256(4) == 0x1_0000_0000 && Pow256(8) == 0x1_0000_0000_0000_0000
  {
    assert Pow256(2) == 256 * Pow256(1);
    assert Pow256(3) == 256 * Pow256(2);
    assert Pow256(4) == 256 * Pow256(3);
    assert Pow256(5) == 256 * Pow256(4);
    assert Pow256(6) == 256 * Pow256(5);
    assert Pow256(7) == 256 * Pow256(6);
    assert Pow256(8) == 256 * Pow256(7);
  }

  lemma WidthBound(width: nat)
    requires ValidWidth(width)
    ensures Pow256(width) <= 0x1_0000_0000_0000_0000
  {
    Pow256Values();
  }

  // ---- section lookup ----

  /** The read section that holds all of [addr, addr + width), if there is one. */
  function Find(sections: seq<MemSection>, addr: int, width: nat): (r: Option<nat>)
    ensures r.Some? ==> r.value < |sections| && sections[r.value].Contains(addr, width)
    ensures r.None? ==> forall i :: 0 <= i < |sections| ==> !sections[i].Contains(addr, width)
  {
    if sections == [] then None
    else
      var last := |sections| - 1;
      if sections[last].Contains(addr, width) then Some(last) else Find(sections[..last], addr, width)
  }

  /** Some section holds the whole access. */
  predicate Accessible(m: Memory, addr: int, width: nat) {
    m.writeSection.Contains(addr, width) || Find(m.readSections, addr, width).Some?
  }

  // ---- reads ----

  function Read(m: Memory, addr: u64, width: nat): Option<u64> {
    if !ValidWidth(width) then None
    else
      WidthBound(width);
      if m.writeSection.Contains(addr, width) then Some(m.writeSection.Load(addr, width))
      else
        var i :- Find(m.readSections, addr, width);
        if addr == INPUT_ADDR && width == 8 then Some(m.freeInput)
        else Some(m.readSections[i].Load(addr, width))
  }

  predicate FullAligned(addr: u64, width: nat) {
    addr % 4 == 0 && width == 8
  }

  /** The addresses of the aligned words that hold the first and the last byte of an access. (An
      access that runs past the last address is in no section, so the sum need not wrap.) */
  function RequiredAddresses(addr: int, width: int): (int, int) {
    (Align(addr), Align(addr + width - 1))
  }

  /** x & !7 */
  function Align(x: int): int {
    x - x % 8
  }

  /** One aligned word of a section, with the bounds the source asserts. */
  function AlignedWord(s: MemSection, addr: int): Option<u64>
    requires s.Sized()
  {
    WidthBound(8);
    if s.Contains(addr, 8) then Some(s.Load(addr, 8)) else None
  }

  function RequiredWords(s: MemSection, addr: u64, width: nat): Option<seq<u64>>
    requires s.Sized()
  {
    var (first, second) := RequiredAddresses(addr, width);
    if FullAligned(addr, width) then Some([])
    else if first == second then
      var w :- AlignedWord(s, first);
      Some([w])
    else
      var w1 :- AlignedWord(s, first);
      var w2 :- AlignedWord(s, second);
      Some([w1, w2])
  }

  /** The value together with the aligned words needed to prove an unaligned access. */
  function ReadRequired(m: Memory, addr: u64, width: nat): Option<(u64, seq<u64>)> {
    if !ValidWidth(width) then None
    else
      WidthBound(width);
      if m.writeSection.Contains(addr, width) then
        var words :- RequiredWords(m.writeSection, addr, width);
        Some((m.writeSection.Load(addr, width), words))
      else
        var i :- Find(m.readSections, addr, width);
        var words :- RequiredWords(m.readSections[i], addr, width);
        Some((m.readSections[i].Load(addr, width), words))
  }

  /** Extracts an access of less than 8 bytes from the aligned word that holds it. */
  function SingleNotAligned(addr: u64, width: nat, raw: u64): Option<u64> {
    if width == 1 || width == 2 || width == 4 then Some(Extract(raw, addr % 8, width)) else None
  }

  /** Extracts an access from the two aligned words it straddles. */
  function DoubleNotAligned(addr: u64, width: nat, raw1: u64, raw2: u64): Option<u64> {
    if ValidWidth(width) then Some(Extract(raw1 + raw2 * 0x1_0000_0000_0000_0000, addr % 8, width)) else None
  }

  /** raw >> 8 * off, truncated to 64 bits and masked (M8, M16, M32 or no mask): in all, its low
      width bytes, since width is at most 8. */
  function Extract(raw: nat, off: nat, width: nat): u64
    requires ValidWidth(width)
  {
    WidthBound(width);
    LowBytes(ShrBytes(raw, off), width)
  }

  // ---- writes ----

  function Write(m: Memory, addr: u64, val: u64, width: nat): (r: Option<Memory>)
    ensures r.Some? ==> SameLayout(m, r.value)
  {
    if !ValidWidth(width) then None
    else
      match Find(m.readSections, addr, width)
      case Some(i) =>
        Some(m.(readSections := m.readSections[i := m.readSections[i].Splice(addr, LeBytes(val, width))]))
      case None =>
        if m.writeSection.Contains(addr, width) then
          Some(m.(writeSection := m.writeSection.Splice(addr, LeBytes(val, width))))
        else None
  }

  /** Same sections at the same places; only their bytes may differ. */
  ghost predicate SameLayout(m: RawMemory, m': RawMemory) {
    && |m.readSections| == |m'.readSections|
    && m.writeSection.start == m'.writeSection.start && m.writeSection.end == m'.writeSection.end
    && m.freeInput == m'.freeInput
    && (forall i :: 0 <= i < |m.readSections| ==>
          && m.readSections[i].start == m'.readSections[i].start
          && m.readSections[i].end == m'.readSections[i].end)
  }

  // ---- the byte map a memory stands for ----

  function Byte(m: Memory, a: int): Option<u8> {
    if m.writeSection.Contains(a, 1) then Some(m.writeSection.buffer[a - m.writeSection.start])
    else
      var i :- Find(m.readSections, a, 1);
      Some(m.readSections[i].buffer[a - m.readSections[i].start])
  }

  ghost function Bytes(m: Memory): map<int, u8> {
    map a | 0 <= a < 0x1_0000_0000_0000_0000 && Byte(m, a).Some? :: Byte(m, a).value
  }

  /** The little-endian value of width bytes of a byte map. */
  function LeAt(bytes: map<int, u8>, addr: int, width: nat): nat
    decreases width
  {
    if width == 0 then 0
    else (if addr in bytes then bytes[addr] else 0) + 256 * LeAt(bytes, addr + 1, width - 1)
  }

  /** The bytes a little-endian store of v leaves at addr. */
  function LeMap(addr: int, v: nat, width: nat): (r: map<int, u8>)
    ensures forall a :: a in r <==> addr <= a < addr + width
    decreases width
  {
    if width == 0 then map[] else LeMap(addr + 1, v / 256, width - 1)[addr := v % 256]
  }
}
