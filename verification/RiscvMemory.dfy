/** The memory of a RISC-V hart and the emulator memory that stands for it. */
module RiscvMemory {
  import opened Words
  import opened Wrappers
  import opened MemoryModel
  import opened MemoryLemmas
  import opened Riscv

  /** Where the temporary register lives; the program must stay away from it. */
  const TEMP_ADDR: u64 := 0xA000_0100

  ghost function RegionsOf(m: Memory): set<Region> {
    {RegionOf(m.writeSection)} + set k | 0 <= k < |m.readSections| :: RegionOf(m.readSections[k])
  }

  function RegionOf(s: MemSection): Region {
    Region(s.start, s.end)
  }

  predicate InTemp(a: int) {
    TEMP_ADDR <= a < TEMP_ADDR + 8
  }

  predicate AvoidsTemp(addr: int, width: nat) {
    addr + width <= TEMP_ADDR || TEMP_ADDR + 8 <= addr
  }

  /** The same bytes everywhere but in the temporary register. */
  ghost predicate Agree(b: map<int, u8>, b': map<int, u8>) {
    forall a :: !InTemp(a) ==> (a in b <==> a in b') && (a in b ==> b[a] == b'[a])
  }

  ghost predicate SameMemory(h: Hart, m: Memory) {
    h.regions == RegionsOf(m) && Agree(h.mem, Bytes(m)) && Accessible(m, TEMP_ADDR, 8)
  }

  lemma PermitsAccessible(m: Memory, addr: int, width: nat)
    ensures Permits(RegionsOf(m), addr, width) <==> Accessible(m, addr, width)
  {
    if Permits(RegionsOf(m), addr, width) {
      var r :| r in RegionsOf(m) && r.start <= addr && addr + width <= r.end;
      if r != RegionOf(m.writeSection) {
        var k :| 0 <= k < |m.readSections| && r == RegionOf(m.readSections[k]);
        assert m.readSections[k].Contains(addr, width);
      }
    }
    if m.writeSection.Contains(addr, width) {
      assert RegionOf(m.writeSection) in RegionsOf(m);
    }
    if Find(m.readSections, addr, width).Some? {
      var k := Find(m.readSections, addr, width).value;
      assert RegionOf(m.readSections[k]) in RegionsOf(m);
    }
  }

  lemma SameRegions(m: Memory, m': Memory)
    requires SameLayout(m, m')
    ensures RegionsOf(m) == RegionsOf(m')
  {
    assert forall k :: 0 <= k < |m.readSections| ==> RegionOf(m.readSections[k]) == RegionOf(m'.readSections[k]);
  }

  lemma {:induction false} AgreeLe(b: map<int, u8>, b': map<int, u8>, addr: int, width: nat)
    requires Agree(b, b') && AvoidsTemp(addr, width)
    ensures LeAt(b, addr, width) == LeAt(b', addr, width)
  {
    LeAtFramed(b, b', addr, width);
  }

  /** Loads of the hart and of the emulator fail together and find the same value. */
  lemma ReadMatches(h: Hart, m: Memory, addr: u64, width: nat)
    requires SameMemory(h, m) && ValidWidth(width) && AvoidsTemp(addr, width)
    requires !(addr == INPUT_ADDR && width == 8)
    ensures Permits(h.regions, addr, width) <==> Read(m, addr, width).Some?
    ensures Read(m, addr, width).Some? ==> Read(m, addr, width) == Some(LeAt(h.mem, addr, width))
  {
    hide LeAt, Permits, Accessible;
    PermitsAccessible(m, addr, width);
    ReadRefinesBytes(m, addr, width);
    AgreeLe(h.mem, Bytes(m), addr, width);
    hide Read;
  }

  /** Stores fail together and leave the same bytes. */
  lemma WriteMatches(h: Hart, m: Memory, addr: u64, val: u64, width: nat)
    requires SameMemory(h, m) && ValidWidth(width)
    ensures Permits(h.regions, addr, width) <==> Write(m, addr, val, width).Some?
    ensures Write(m, addr, val, width).Some? ==>
              SameMemory(h.(mem := h.mem + LeMap(addr, val, width)), Write(m, addr, val, width).value)
  {
    hide Permits, Bytes, LeMap;
    PermitsAccessible(m, addr, width);
    WriteRefinesBytes(m, addr, val, width);
    if Write(m, addr, val, width).Some? {
      var m' := Write(m, addr, val, width).value;
      hide Write;
      SameRegions(m, m');
      LayoutAccessible(m, m', TEMP_ADDR, 8);
    }
  }

  /** The temporary register holds what is put there, and nobody else sees it. */
  lemma WriteTemp(h: Hart, m: Memory, val: u64, width: nat)
    requires SameMemory(h, m) && width == 8
    ensures Write(m, TEMP_ADDR, val, width).Some?
    ensures SameMemory(h, Write(m, TEMP_ADDR, val, width).value)
    ensures Read(Write(m, TEMP_ADDR, val, width).value, TEMP_ADDR, width) == Some(val)
  {
    hide Bytes, LeAt, LowBytes;
    WriteRefinesBytes(m, TEMP_ADDR, val, width);
    var m' := Write(m, TEMP_ADDR, val, width).value;
    ReadRefinesBytes(m', TEMP_ADDR, width);
    hide Write, Read;
    SameRegions(m, m');
    LayoutAccessible(m, m', TEMP_ADDR, width);
    LeAtOwnWrite(Bytes(m), TEMP_ADDR, val, width);
    AllBytes(val, width);
  }

  lemma AllBytes(val: u64, width: nat)
    requires width == 8
    ensures LowBytes(val, width) == val
  {
    hide LowBytes;
    LowBytesMod(val, width);
    Pow256Values();
  }

  /** A store elsewhere leaves the temporary register alone. */
  lemma TempKept(m: Memory, addr: u64, val: u64, width: nat, n: nat)
    requires Write(m, addr, val, width).Some? && AvoidsTemp(addr, width) && Accessible(m, TEMP_ADDR, n) && n == 8
    ensures Read(Write(m, addr, val, width).value, TEMP_ADDR, n) == Read(m, TEMP_ADDR, n)
  {
    hide Bytes, LeAt;
    WriteRefinesBytes(m, addr, val, width);
    var m' := Write(m, addr, val, width).value;
    ReadRefinesBytes(m', TEMP_ADDR, n);
    ReadRefinesBytes(m, TEMP_ADDR, n);
    hide Write, Read;
    LayoutAccessible(m, m', TEMP_ADDR, n);
    LeAtFramed(Bytes(m), Bytes(m'), TEMP_ADDR, n);
  }

  /** A store only looks at the low bytes of the value. */
  lemma {:induction false} LeMapLow(addr: int, v: nat, v': nat, width: nat)
    requires LowBytes(v, width) == LowBytes(v', width)
    ensures LeMap(addr, v, width) == LeMap(addr, v', width)
    decreases width
  {
    if width > 0 {
      LeMapLow(addr + 1, v / 256, v' / 256, width - 1);
    }
  }

  lemma FoundBound(h: Hart, addr: int, width: nat)
    requires ValidWidth(width)
    ensures LeAt(h.mem, addr, width) < Pow256(width) <= 0x1_0000_0000_0000_0000
  {
    LeAtBound(h.mem, addr, width);
    WidthBound(width);
  }

  /** Permitted bytes of a hart exist. */
  lemma PermittedHere(h: Hart, m: Memory, addr: int, width: nat)
    requires SameMemory(h, m) && Permits(h.regions, addr, width) && AvoidsTemp(addr, width) && width > 0
    ensures forall a :: addr <= a < addr + width ==> a in h.mem
  {
    hide Permits;
    PermitsAccessible(m, addr, width);
    BytesHold(m, addr, width);
    hide Bytes;
  }

  /** Storing what is there already changes nothing. */
  lemma {:induction false} LeMapSame(b: map<int, u8>, addr: int, v: nat, width: nat)
    requires (forall a :: addr <= a < addr + width ==> a in b) && LeAt(b, addr, width) == LowBytes(v, width)
    ensures forall a :: addr <= a < addr + width ==> LeMap(addr, v, width)[a] == b[a]
    decreases width
  {
    if width > 0 {
      LowByteOf(b[addr], LeAt(b, addr + 1, width - 1), v % 256, LowBytes(v / 256, width - 1));
      LeMapSame(b, addr + 1, v / 256, width - 1);
    }
  }

  lemma LowByteOf(x: nat, rest: nat, x': nat, rest': nat)
    requires x < 256 && x' < 256 && x + 256 * rest == x' + 256 * rest'
    ensures x == x' && rest == rest'
  {
  }

  /** A store is invisible exactly when it stores what is there already. */
  lemma InvisibleStore(h: Hart, m: Memory, m': Memory, addr: int, v: nat, width: nat)
    requires SameMemory(h, m) && Permits(h.regions, addr, width) && AvoidsTemp(addr, width) && width > 0
    requires SameMemory(h.(mem := h.mem + LeMap(addr, v, width)), m')
    ensures SameMemory(h, m') <==> LeAt(h.mem, addr, width) == LowBytes(v, width)
  {
    PermittedHere(h, m, addr, width);
    LeAtOwnWrite(h.mem, addr, v, width);
    hide LeAt, LowBytes, LeMap, Permits, Bytes, Accessible, RegionsOf;
    var stored := h.mem + LeMap(addr, v, width);
    if SameMemory(h, m') {
      AgreeLe(h.mem, Bytes(m'), addr, width);
      AgreeLe(stored, Bytes(m'), addr, width);
    }
    if LeAt(h.mem, addr, width) == LowBytes(v, width) {
      LeMapSame(h.mem, addr, v, width);
      assert stored == h.mem;
    }
  }
}
