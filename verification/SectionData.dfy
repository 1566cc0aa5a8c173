/** Where the bytes of the sections of a file end up: in exactly one item, and in memory after start-up. */
module SectionData {
  import opened Words
  import opened Wrappers
  import opened MemoryModel
  import opened MemObject
  import opened Machine
  import opened Traces
  import opened Transpiler
  import opened InitData
  import opened Elf2Rom
  import opened Boot
  import opened Program
  import opened WholeRun
  import E = EmuContext

  // ---- sections and items, byte by byte ----

  /** The section has byte v at address a. */
  predicate HasByte(s: ElfSection, a: int, v: u8) {
    s.addr != 0 && s.addr <= a < s.addr + |s.Data()| && s.Data()[a - s.addr] == v
  }

  predicate InSection(s: ElfSection, a: int) {
    s.addr != 0 && s.addr <= a < s.addr + |s.Data()|
  }

  predicate Covers(item: Piece, a: int) {
    item.start <= a < item.start + |item.bytes|
  }

  predicate ItemByte(item: Piece, a: int, v: u8) {
    Covers(item, a) && item.bytes[a - item.start] == v
  }

  /** No two sections share an address. */
  ghost predicate SharesNothing(sections: seq<ElfSection>) {
    forall j, j', a :: 0 <= j < |sections| && 0 <= j' < |sections| && InSection(sections[j], a) && InSection(sections[j'], a) ==>
      j == j'
  }

  /** The items hold the bytes of the sections that are, or are not, initialised RAM, and nothing else,
      each byte once. */
  ghost predicate Hold(items: seq<Piece>, sections: seq<ElfSection>, ram: bool) {
    && (forall j, a, v :: 0 <= j < |sections| && sections[j].IsRam() == ram && HasByte(sections[j], a, v) ==> SomeItem(items, a, v))
    && (forall i, a, v :: 0 <= i < |items| && ItemByte(items[i], a, v) ==> SomeSection(sections, ram, a, v))
    && (forall i, i', a :: 0 <= i < |items| && 0 <= i' < |items| && Covers(items[i], a) && Covers(items[i'], a) ==> i == i')
  }

  ghost predicate SomeItem(items: seq<Piece>, a: int, v: u8) {
    exists i :: 0 <= i < |items| && ItemByte(items[i], a, v)
  }

  ghost predicate SomeSection(sections: seq<ElfSection>, ram: bool, a: int, v: u8) {
    exists j :: 0 <= j < |sections| && sections[j].IsRam() == ram && HasByte(sections[j], a, v)
  }

  lemma ByteThere(s: ElfSection, a: int)
    requires InSection(s, a)
    ensures HasByte(s, a, s.Data()[a - s.addr])
  {
  }

  lemma CoveredByte(item: Piece, a: int)
    requires Covers(item, a)
    ensures ItemByte(item, a, item.bytes[a - item.start])
  {
  }

  lemma SharedTwice(sections: seq<ElfSection>, s: ElfSection, j: nat, a: int)
    requires j < |sections| && InSection(sections[j], a) && InSection(s, a)
    ensures !SharesNothing(sections + [s])
  {
    var all := sections + [s];
    assert InSection(all[j], a) && InSection(all[|sections|], a);
  }

  /** An address that only the new section has is not covered yet. */
  lemma NotCovered(items: seq<Piece>, sections: seq<ElfSection>, s: ElfSection, ram: bool, i: nat, a: int)
    requires Hold(items, sections, ram) && SharesNothing(sections + [s]) && i < |items| && InSection(s, a)
    ensures !Covers(items[i], a)
  {
    if Covers(items[i], a) {
      CoveredByte(items[i], a);
      var v := items[i].bytes[a - items[i].start];
      assert SomeSection(sections, ram, a, v);
      var j :| 0 <= j < |sections| && sections[j].IsRam() == ram && HasByte(sections[j], a, v);
      SharedTwice(sections, s, j, a);
    }
  }

  /** Items that grow by the bytes of one more section, each byte in one place. */
  ghost predicate Grown(items: seq<Piece>, more: seq<Piece>, s: ElfSection) {
    && |items| <= |more| <= |items| + 1
    && (forall i, a, v :: 0 <= i < |more| ==> GrownAt(items, more, s, i, a, v))
  }

  predicate GrownAt(items: seq<Piece>, more: seq<Piece>, s: ElfSection, i: nat, a: int, v: u8)
    requires i < |more|
  {
    ItemByte(more[i], a, v) <==>
      (i < |items| && ItemByte(items[i], a, v)) || (i == Place(items, more, s) && HasByte(s, a, v))
  }

  /** Which item got the section. */
  function Place(items: seq<Piece>, more: seq<Piece>, s: ElfSection): nat {
    if |more| > |items| then |items| else FirstBefore(items, s.addr)
  }

  lemma RoGrown(items: seq<Piece>, s: ElfSection)
    requires s.addr != 0
    ensures Grown(items, AddRo(items, s.addr, s.Data()), s)
  {
    var more, p := AddRo(items, s.addr, s.Data()), FirstBefore(items, s.addr);
    forall i, a, v | 0 <= i < |more|
      ensures GrownAt(items, more, s, i, a, v)
    {
      if p < |items| {
        Joined(items[p], s, a, v);
        assert more[p] == Piece(items[p].start, items[p].bytes + s.Data());
      }
    }
  }

  lemma Joined(item: Piece, s: ElfSection, a: int, v: u8)
    requires s.addr != 0 && item.start + |item.bytes| == s.addr
    ensures ItemByte(Piece(item.start, item.bytes + s.Data()), a, v) <==> ItemByte(item, a, v) || HasByte(s, a, v)
  {
    var bytes := item.bytes + s.Data();
    if s.addr <= a < s.addr + |s.Data()| {
      assert bytes[a - item.start] == s.Data()[a - s.addr];
    }
  }

  lemma RamGrown(items: seq<Piece>, s: ElfSection)
    requires s.addr != 0
    ensures Grown(items, items + [Piece(s.addr, s.Data())], s)
  {
    var more := items + [Piece(s.addr, s.Data())];
    forall i, a, v | 0 <= i < |more|
      ensures GrownAt(items, more, s, i, a, v)
    {
    }
  }

  lemma AllFound(items: seq<Piece>, more: seq<Piece>, sections: seq<ElfSection>, s: ElfSection, ram: bool, j: nat, a: int, v: u8)
    requires Hold(items, sections, ram) && Grown(items, more, s) && s.IsRam() == ram && Place(items, more, s) < |more|
    requires j < |sections + [s]| && (sections + [s])[j].IsRam() == ram && HasByte((sections + [s])[j], a, v)
    ensures SomeItem(more, a, v)
  {
    hide HasByte, ItemByte, ElfSection.IsRam, Place;
    if j < |sections| {
      assert sections[j] == (sections + [s])[j];
      assert SomeItem(items, a, v);
      var i :| 0 <= i < |items| && ItemByte(items[i], a, v);
      assert GrownAt(items, more, s, i, a, v);
    } else {
      assert GrownAt(items, more, s, Place(items, more, s), a, v);
    }
  }

  lemma AllFrom(items: seq<Piece>, more: seq<Piece>, sections: seq<ElfSection>, s: ElfSection, ram: bool, i: nat, a: int, v: u8)
    requires Hold(items, sections, ram) && Grown(items, more, s) && s.IsRam() == ram
    requires i < |more| && ItemByte(more[i], a, v)
    ensures SomeSection(sections + [s], ram, a, v)
  {
    hide HasByte, ItemByte, ElfSection.IsRam, Place;
    var all := sections + [s];
    assert GrownAt(items, more, s, i, a, v);
    if i < |items| && ItemByte(items[i], a, v) {
      assert SomeSection(sections, ram, a, v);
      var j :| 0 <= j < |sections| && sections[j].IsRam() == ram && HasByte(sections[j], a, v);
      assert all[j] == sections[j];
    } else {
      assert all[|sections|] == s;
    }
  }

  /** Where the byte of an item came from. */
  lemma GrownFrom(items: seq<Piece>, more: seq<Piece>, s: ElfSection, i: nat, a: int)
    requires Grown(items, more, s) && i < |more| && Covers(more[i], a)
    ensures (i < |items| && Covers(items[i], a)) || (i == Place(items, more, s) && InSection(s, a))
  {
    hide Place;
    CoveredByte(more[i], a);
    assert GrownAt(items, more, s, i, a, more[i].bytes[a - more[i].start]);
  }

  lemma AllOnce(items: seq<Piece>, more: seq<Piece>, sections: seq<ElfSection>, s: ElfSection, ram: bool, i: nat, i': nat, a: int)
    requires Hold(items, sections, ram) && Grown(items, more, s) && SharesNothing(sections + [s])
    requires i < |more| && i' < |more| && Covers(more[i], a) && Covers(more[i'], a)
    ensures i == i'
  {
    GrownFrom(items, more, s, i, a);
    GrownFrom(items, more, s, i', a);
    if InSection(s, a) {
      if i < |items| { NotCovered(items, sections, s, ram, i, a); }
      if i' < |items| { NotCovered(items, sections, s, ram, i', a); }
    }
  }

  lemma GrownHold(items: seq<Piece>, more: seq<Piece>, sections: seq<ElfSection>, s: ElfSection, ram: bool)
    requires Hold(items, sections, ram) && Grown(items, more, s) && s.IsRam() == ram && Place(items, more, s) < |more|
    requires SharesNothing(sections + [s])
    ensures Hold(more, sections + [s], ram)
  {
    hide Grown, HasByte, ItemByte, ElfSection.IsRam, Place, SharesNothing, Covers, SomeItem, SomeSection;
    var all := sections + [s];
    forall j, a, v | 0 <= j < |all| && all[j].IsRam() == ram && HasByte(all[j], a, v)
      ensures SomeItem(more, a, v)
    {
      AllFound(items, more, sections, s, ram, j, a, v);
    }
    forall i, a, v | 0 <= i < |more| && ItemByte(more[i], a, v)
      ensures SomeSection(all, ram, a, v)
    {
      AllFrom(items, more, sections, s, ram, i, a, v);
    }
    forall i, i', a | 0 <= i < |more| && 0 <= i' < |more| && Covers(more[i], a) && Covers(more[i'], a)
      ensures i == i'
    {
      AllOnce(items, more, sections, s, ram, i, i', a);
    }
  }

  /** A section of the other kind, or without an address, changes nothing. */
  lemma OtherHold(items: seq<Piece>, sections: seq<ElfSection>, s: ElfSection, ram: bool)
    requires Hold(items, sections, ram) && (s.addr == 0 || s.IsRam() != ram)
    ensures Hold(items, sections + [s], ram)
  {
    hide ItemByte, ElfSection.IsRam, SomeItem, Covers;
    var all := sections + [s];
    forall i, a, v | 0 <= i < |items| && ItemByte(items[i], a, v)
      ensures SomeSection(all, ram, a, v)
    {
      assert SomeSection(sections, ram, a, v);
      var j :| 0 <= j < |sections| && sections[j].IsRam() == ram && HasByte(sections[j], a, v);
      assert all[j] == sections[j];
    }
  }

  lemma SharesLess(sections: seq<ElfSection>, n: nat)
    requires SharesNothing(sections) && n <= |sections|
    ensures SharesNothing(sections[..n])
  {
    hide InSection;
  }

  lemma NothingHeld(ram: bool)
    ensures Hold([], [], ram)
  {
  }

  lemma {:induction false} RamHold(sections: seq<ElfSection>)
    requires SharesNothing(sections)
    ensures Hold(RamItems(sections), sections, true)
  {
    hide Hold, SharesNothing, Grown;
    if sections == [] {
      NothingHeld(true);
    } else {
      var n := |sections| - 1;
      var before, s := sections[..n], sections[n];
      assert sections == before + [s];
      SharesLess(sections, n);
      RamHold(before);
      if s.IsRam() {
        RamGrown(RamItems(before), s);
        GrownHold(RamItems(before), RamItems(sections), before, s, true);
      } else {
        OtherHold(RamItems(before), before, s, true);
        assert RamItems(before) + [] == RamItems(before);
      }
    }
  }

  lemma {:induction false} RoHold(sections: seq<ElfSection>)
    requires SharesNothing(sections)
    ensures Hold(RoItems(sections), sections, false)
  {
    hide Hold, SharesNothing, Grown;
    if sections == [] {
      NothingHeld(false);
    } else {
      var n := |sections| - 1;
      var before, s := sections[..n], sections[n];
      assert sections == before + [s];
      SharesLess(sections, n);
      RoHold(before);
      if s.addr == 0 || s.IsRam() {
        OtherHold(RoItems(before), before, s, false);
      } else {
        RoGrown(RoItems(before), s);
        GrownHold(RoItems(before), RoItems(sections), before, s, false);
      }
    }
  }

  // ---- all items together ----

  /** Exactly one item covers the address, and it has byte v there. */
  ghost predicate OneItem(items: seq<Piece>, a: int, v: u8) {
    exists i :: 0 <= i < |items| && OnlyItem(items, i, a, v)
  }

  ghost predicate OnlyItem(items: seq<Piece>, i: nat, a: int, v: u8)
    requires i < |items|
  {
    ItemByte(items[i], a, v) && forall i' :: 0 <= i' < |items| && Covers(items[i'], a) ==> i' == i
  }

  lemma OtherKind(items: seq<Piece>, sections: seq<ElfSection>, ram: bool, i: nat, j: nat, a: int)
    requires Hold(items, sections, ram) && SharesNothing(sections) && i < |items| && Covers(items[i], a)
    requires j < |sections| && InSection(sections[j], a)
    ensures sections[j].IsRam() == ram
  {
    hide ElfSection.IsRam;
    CoveredByte(items[i], a);
    var v := items[i].bytes[a - items[i].start];
    assert SomeSection(sections, ram, a, v);
    var j' :| 0 <= j' < |sections| && sections[j'].IsRam() == ram && HasByte(sections[j'], a, v);
    assert InSection(sections[j'], a);
  }

  /** Every byte of every section is in exactly one item. */
  lemma SectionInItems(sections: seq<ElfSection>, j: nat, k: nat)
    requires SharesNothing(sections) && j < |sections| && sections[j].addr != 0 && k < |sections[j].Data()|
    ensures OneItem(Items(sections), sections[j].addr + k, sections[j].Data()[k])
  {
    var s, a := sections[j], sections[j].addr + k;
    var ram, ro, v := RamItems(sections), RoItems(sections), s.Data()[k];
    RamHold(sections);
    RoHold(sections);
    assert HasByte(s, a, v) && InSection(s, a);
    hide RamItems, RoItems, SharesNothing, Hold, ElfSection.IsRam, HasByte, InSection;
    var mine := if s.IsRam() then ram else ro;
    HoldFinds(mine, sections, s.IsRam(), j, a, v);
    var i :| 0 <= i < |mine| && ItemByte(mine[i], a, v);
    var at := if s.IsRam() then i else |ram| + i;
    forall i' | 0 <= i' < |Items(sections)| && Covers(Items(sections)[i'], a)
      ensures i' == at
    {
      var theirs, place := if i' < |ram| then ram else ro, if i' < |ram| then i' else i' - |ram|;
      OtherKind(theirs, sections, i' < |ram|, place, j, a);
      HoldOnce(mine, sections, s.IsRam(), i, place, a);
    }
    assert OnlyItem(Items(sections), at, a, v);
  }

  lemma HoldFinds(items: seq<Piece>, sections: seq<ElfSection>, ram: bool, j: nat, a: int, v: u8)
    requires Hold(items, sections, ram) && j < |sections| && sections[j].IsRam() == ram && HasByte(sections[j], a, v)
    ensures SomeItem(items, a, v)
  {
    hide HasByte, ElfSection.IsRam, SomeItem;
  }

  lemma HoldOnce(items: seq<Piece>, sections: seq<ElfSection>, ram: bool, i: nat, i': nat, a: int)
    requires Hold(items, sections, ram) && i < |items| && i' < |items| && Covers(items[i], a) && Covers(items[i'], a)
    ensures i == i'
  {
  }

  /** And no item has any other byte. */
  lemma ItemsInSections(sections: seq<ElfSection>, i: nat, a: int)
    requires SharesNothing(sections) && i < |Items(sections)| && Covers(Items(sections)[i], a)
    ensures exists j :: 0 <= j < |sections| && HasByte(sections[j], a, Items(sections)[i].bytes[a - Items(sections)[i].start])
  {
    var ram, ro := RamItems(sections), RoItems(sections);
    RamHold(sections);
    RoHold(sections);
    hide RamItems, RoItems, SharesNothing, ElfSection.IsRam, HasByte;
    var item := Items(sections)[i];
    CoveredByte(item, a);
    assert SomeSection(sections, i < |ram|, a, item.bytes[a - item.start]) by {
      assert item == if i < |ram| then ram[i] else ro[i - |ram|];
    }
  }

  predicate WithinRam(s: ElfSection) {
    RAM_ADDR <= s.addr && s.addr + |s.Data()| <= RAM_ADDR + RAM_SIZE
  }

  /** Data in RAM become read-only data exactly when they are not writable. */
  lemma ReadOnlyInRam(sections: seq<ElfSection>, j: nat, k: nat)
    requires SharesNothing(sections) && j < |sections| && WithinRam(sections[j]) && k < |sections[j].Data()|
    ensures !sections[j].writable <==> SomeItem(RoItems(sections), sections[j].addr + k, sections[j].Data()[k])
  {
    var s, a, ro := sections[j], sections[j].addr + k, RoItems(sections);
    var v := s.Data()[k];
    RoHold(sections);
    assert HasByte(s, a, v) && InSection(s, a);
    hide RoItems, SharesNothing, Hold, HasByte, InSection;
    if !s.writable {
      HoldFinds(ro, sections, false, j, a, v);
    }
    if SomeItem(ro, a, v) {
      var i :| 0 <= i < |ro| && ItemByte(ro[i], a, v);
      OtherKind(ro, sections, false, i, j, a);
    }
  }

  // ---- in memory after start-up ----

  /** A later item covers the address with the zeros behind its end. */
  ghost predicate PaddedOver(items: seq<Piece>, a: int) {
    exists i, i' :: 0 <= i < i' < |items| && Covers(items[i], a) && InItem(items[i'], a)
  }

  predicate InControl(a: int) {
    MARCHID <= a < MARCHID + 8 || MTVEC <= a < MTVEC + 8
  }

  lemma {:induction false} LastItem(items: seq<Piece>, n: nat, i: nat, a: int) returns (m: nat)
    requires i < n <= |items| && InItem(items[i], a)
    ensures i <= m < n && InItem(items[m], a) && forall k :: m < k < n ==> !InItem(items[k], a)
  {
    hide InItem;
    if InItem(items[n - 1], a) {
      m := n - 1;
    } else {
      m := LastItem(items, n - 1, i, a);
    }
  }

  lemma CoveredIn(item: Piece, a: int)
    ensures Covers(item, a) ==> InItem(item, a)
    ensures InItem(item, a) && !Covers(item, a) ==> Filled(item.bytes, a - item.start) == 0
    ensures Covers(item, a) ==> Filled(item.bytes, a - item.start) == item.bytes[a - item.start]
  {
    WordsBound(|item.bytes|);
  }

  /** The byte that start-up leaves at an address of exactly one item. */
  lemma OverlayExactly(b: map<int, u8>, items: seq<Piece>, i: nat, a: int, v: u8)
    requires i < |items| && OnlyItem(items, i, a, v)
    ensures a in Overlay(b, items, |items|)
    ensures Overlay(b, items, |items|)[a] == if PaddedOver(items, a) then 0 else v
  {
    hide InItem, Overlay, Filled;
    CoveredIn(items[i], a);
    var m := LastItem(items, |items|, i, a);
    CoveredIn(items[m], a);
    OverlayAt(b, items, |items|, m, a);
    if m != i {
      assert PaddedOver(items, a);
    }
  }

  lemma ControlElsewhere(b: map<int, u8>, base: u64, a: int)
    requires base + 0x40 < 0x1_0000_0000_0000_0000 && !InControl(a) && a in b
    ensures a in CsrBytes(b, base) && CsrBytes(b, base)[a] == b[a]
  {
    hide LeMap;
  }

  /** Loading. After start-up every byte of every section is at its address in memory, unless the zeros
      behind the end of a later item are, or the address belongs to the two control registers. */
  lemma SectionAfterBoot(p: Platform, s: State, sections: seq<ElfSection>, entry: u64, j: nat, k: nat)
    requires RomFor(p.rom, sections, entry) && s.pc == ROM_ENTRY && BootAccessible(s.mem, sections)
    requires SharesNothing(sections) && j < |sections| && sections[j].addr != 0 && k < |sections[j].Data()|
    requires !InControl(sections[j].addr + k)
    ensures Run(p, s, BootSteps(sections)).Some?
    ensures Byte(Run(p, s, BootSteps(sections)).value.mem, sections[j].addr + k) ==
            Some(if PaddedOver(Items(sections), sections[j].addr + k) then 0 else sections[j].Data()[k])
  {
    hide RomFor, Run, SharesNothing, BootAccessible, Overlay, CsrBytes, Items, OnlyItem, PaddedOver, InControl, CallRegs, SameLayout,
      BootSteps;
    var a, v := sections[j].addr + k, sections[j].Data()[k];
    EntryRoom(p.rom, sections, entry);
    hide EntryAddress;
    Boots(p, s, sections, entry);
    SectionInItems(sections, j, k);
    var i :| 0 <= i < |Items(sections)| && OnlyItem(Items(sections), i, a, v);
    OverlayExactly(Bytes(s.mem), Items(sections), i, a, v);
    ControlElsewhere(Overlay(Bytes(s.mem), Items(sections), |Items(sections)|), EntryAddress(sections), a);
    ByteOf(Run(p, s, BootSteps(sections)).value.mem, a);
  }

  lemma ByteOf(m: Memory, a: int)
    ensures a in Bytes(m) ==> Byte(m, a) == Some(Bytes(m)[a])
  {
    hide Byte;
  }

  /** Items that start at multiples of 8 leave each other alone. */
  lemma AlignedNotPadded(items: seq<Piece>, a: int)
    requires forall i :: 0 <= i < |items| ==> items[i].start % 8 == 0
    requires forall i, i', x :: 0 <= i < |items| && 0 <= i' < |items| && Covers(items[i], x) && Covers(items[i'], x) ==> i == i'
    ensures !PaddedOver(items, a)
  {
    if i, i' :| 0 <= i < i' < |items| && Covers(items[i], a) && InItem(items[i'], a) {
      WordStart(items[i], a);
      WordStart(items[i'], a);
    }
  }

  /** An aligned item that reaches into a word has its first byte. */
  lemma WordStart(item: Piece, a: int)
    requires item.start % 8 == 0 && InItem(item, a)
    ensures Covers(item, a - a % 8)
  {
    var n := |item.bytes|;
    assert 8 * WordsOf(n) < n + 8;
    var w := a - a % 8;
    assert (w - item.start) % 8 == 0;
    assert w - item.start <= 8 * WordsOf(n) - 8;
  }

  /** No two items share an address. */
  lemma ItemsApart(sections: seq<ElfSection>, i: nat, i': nat, a: int)
    requires SharesNothing(sections) && i < |Items(sections)| && i' < |Items(sections)|
    requires Covers(Items(sections)[i], a) && Covers(Items(sections)[i'], a)
    ensures i == i'
  {
    ItemsInSections(sections, i, a);
    hide Items, SharesNothing, ElfSection.IsRam;
    var j :| 0 <= j < |sections| && HasByte(sections[j], a, Items(sections)[i].bytes[a - Items(sections)[i].start]);
    SectionInItems(sections, j, a - sections[j].addr);
    var m :| 0 <= m < |Items(sections)| && OnlyItem(Items(sections), m, a, sections[j].Data()[a - sections[j].addr]);
  }

  lemma LaunchedAligned(sections: seq<ElfSection>, input: seq<u8>, i: nat)
    requires E.Loadable(RoItems(sections), input) && RamAligned(sections) && i < |Items(sections)|
    ensures Items(sections)[i].start % 8 == 0
  {
    RamItemsAligned(sections);
    hide RamItems, RoItems;
    var ram, ro := RamItems(sections), RoItems(sections);
    if i < |ram| {
      assert RamItem(ram[i]);
    } else {
      assert ro[i - |ram|].Fits();
    }
  }

  /** What a program finds. When the emulator starts a program whose data fit its memory, all bytes of
      all sections are in place once the program is called. */
  lemma ProgramFinds(p: Platform, sections: seq<ElfSection>, entry: u64, code: Code, input: seq<u8>, j: nat, k: nat)
    requires Launched(p, sections, entry, code, input)
    requires SharesNothing(sections) && j < |sections| && sections[j].addr != 0 && k < |sections[j].Data()|
    requires !InControl(sections[j].addr + k)
    ensures Run(p, FirstState(sections, input), BootSteps(sections)).Some?
    ensures Byte(Run(p, FirstState(sections, input), BootSteps(sections)).value.mem, sections[j].addr + k) == Some(sections[j].Data()[k])
  {
    hide RomFor, CodeOf, Run, SharesNothing, Items, E.Loadable, RamAligned, InControl, FirstState, BootSteps, Covers, BootAccessible,
      PaddedOver, Accessible;
    LaunchedReady(p, sections, entry, code, input);
    SectionAfterBoot(p, FirstState(sections, input), sections, entry, j, k);
    forall i | 0 <= i < |Items(sections)|
      ensures Items(sections)[i].start % 8 == 0
    {
      LaunchedAligned(sections, input, i);
    }
    forall i, i', x | 0 <= i < |Items(sections)| && 0 <= i' < |Items(sections)| && Covers(Items(sections)[i], x) && Covers(Items(sections)[i'], x)
      ensures i == i'
    {
      ItemsApart(sections, i, i', x);
    }
    AlignedNotPadded(Items(sections), sections[j].addr + k);
  }

  /** Two initialised sections of four bytes, the second one in front of the first. */
  function BackToFront(): seq<ElfSection> {
    [ElfSection(0xA002_0004, [1, 2, 3, 4], false, true), ElfSection(0xA002_0000, [5, 6, 7, 8], false, true)]
  }

  /** Here the zeros behind the later section overwrite the earlier one. */
  lemma BackToFrontPadded()
    ensures SharesNothing(BackToFront()) && HasByte(BackToFront()[0], 0xA002_0004, 1)
    ensures PaddedOver(Items(BackToFront()), 0xA002_0004)
  {
    var sections := BackToFront();
    var first, second := sections[0], sections[1];
    assert sections[..1] == [first] && [first][..0] == [];
    assert first.Data() == first.bytes == [1, 2, 3, 4] && second.Data() == second.bytes == [5, 6, 7, 8];
    assert first.IsRam() && second.IsRam();
    assert RamItems([first]) == [Piece(0xA002_0004, [1, 2, 3, 4])];
    assert RamItems(sections) == [Piece(0xA002_0004, [1, 2, 3, 4]), Piece(0xA002_0000, [5, 6, 7, 8])];
    assert Covers(Items(sections)[0], 0xA002_0004) && InItem(Items(sections)[1], 0xA002_0004);
  }
}
