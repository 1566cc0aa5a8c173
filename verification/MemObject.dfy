/** The memory object: sections built up at start, then read and written in place. */
module MemObject {
  import opened Words
  import opened Wrappers
  import opened MemoryModel
  import opened MemoryLemmas

  /** What every read section keeps: 8-aligned ends, with less than 8 bytes of padding. */
  predicate ReadSectionOk(s: MemSection) {
    && s.start % 8 == 0 && s.end % 8 == 0
    && s.end == s.start + |s.buffer|
    && s.start <= s.realEnd <= s.end < s.realEnd + 8
  }

  predicate ReadSectionsOk(sections: seq<MemSection>) {
    forall i :: 0 <= i < |sections| ==> ReadSectionOk(sections[i])
  }

  /** The bytes that were added to a section, without the padding. */
  function Content(s: MemSection): seq<u8>
    requires ReadSectionOk(s)
  {
    s.buffer[..s.realEnd - s.start]
  }

  /** Index of the first section that ends where the new one starts, or the number of sections. */
  function FirstEndingAt(sections: seq<MemSection>, start: int): (i: nat)
    ensures i <= |sections|
    ensures i < |sections| ==> sections[i].realEnd == start
    ensures forall j :: 0 <= j < i ==> sections[j].realEnd != start
  {
    if sections == [] then 0
    else if sections[0].realEnd == start then 0
    else 1 + FirstEndingAt(sections[1..], start)
  }

  /** Bytes up to the next multiple of 8. */
  function Padding(n: nat): (r: nat)
    ensures r < 8 && (n + r) % 8 == 0
  {
    (8 - n % 8) % 8
  }

  /** A section that holds just these bytes, padded with zeros to a multiple of 8. */
  function Padded(start: u64, bytes: seq<u8>): MemSection
    requires start + |bytes| + 8 < 0x1_0000_0000_0000_0000
  {
    var end := start + |bytes|;
    MemSection(start, end + Padding(end), end, bytes + seq(Padding(end), _ => 0))
  }

  /** The read sections after one more piece: it continues the first section that ends where it
      starts, or is a section of its own. */
  function Added(sections: seq<MemSection>, start: u64, bytes: seq<u8>): seq<MemSection>
    requires ReadSectionsOk(sections) && start + |bytes| + 8 < 0x1_0000_0000_0000_0000
  {
    var i := FirstEndingAt(sections, start);
    if i < |sections| then
      sections[i := Padded(sections[i].start, Content(sections[i]) + bytes)]
    else sections + [Padded(start, bytes)]
  }

  lemma PaddedOk(start: u64, bytes: seq<u8>)
    requires start % 8 == 0 && start + |bytes| + 8 < 0x1_0000_0000_0000_0000
    ensures ReadSectionOk(Padded(start, bytes)) && Content(Padded(start, bytes)) == bytes
  {
  }

  /** A piece that can be added: where it starts, and its bytes. */
  datatype Piece = Piece(start: u64, bytes: seq<u8>) {
    predicate Fits() {
      start % 8 == 0 && start + |bytes| + 8 < 0x1_0000_0000_0000_0000
    }
  }

  ghost predicate AllFit(pieces: seq<Piece>) {
    forall i :: 0 <= i < |pieces| ==> pieces[i].Fits()
  }

  /** The sections after adding pieces in order. */
  ghost function AddAll(pieces: seq<Piece>): (r: seq<MemSection>)
    requires AllFit(pieces)
    ensures ReadSectionsOk(r)
  {
    if pieces == [] then []
    else
      var last := pieces[|pieces| - 1];
      var before := AddAll(pieces[..|pieces| - 1]);
      AddedOk(before, last.start, last.bytes);
      Added(before, last.start, last.bytes)
  }

  /** Adding keeps every section well formed. Only the section that is continued changes, and its
      content is the old content followed by the new bytes: the padding is never in between. */
  lemma AddedOk(sections: seq<MemSection>, start: u64, bytes: seq<u8>)
    requires ReadSectionsOk(sections) && start % 8 == 0 && start + |bytes| + 8 < 0x1_0000_0000_0000_0000
    ensures ReadSectionsOk(Added(sections, start, bytes))
    ensures var i, after := FirstEndingAt(sections, start), Added(sections, start, bytes);
            if i < |sections| then
              && sections[i].realEnd == sections[i].end
              && after == sections[i := after[i]] && after[i].start == sections[i].start
              && Content(after[i]) == Content(sections[i]) + bytes
            else
              |after| == |sections| + 1 && after[..|sections|] == sections && Content(after[|sections|]) == bytes
  {
    var i := FirstEndingAt(sections, start);
    if i < |sections| {
      PaddedOk(sections[i].start, Content(sections[i]) + bytes);
    } else {
      PaddedOk(start, bytes);
    }
  }

  /** The bytes an address got from the pieces added so far; later pieces take over. */
  ghost function AddedByte(pieces: seq<Piece>, a: int): Option<u8> {
    if pieces == [] then None
    else
      var last := pieces[|pieces| - 1];
      if last.start <= a < last.start + |last.bytes| then Some(last.bytes[a - last.start])
      else AddedByte(pieces[..|pieces| - 1], a)
  }

  /** No two pieces put a byte at the same address. */
  ghost predicate Disjoint(pieces: seq<Piece>) {
    forall i, j :: 0 <= i < j < |pieces| ==>
      pieces[i].start + |pieces[i].bytes| <= pieces[j].start || pieces[j].start + |pieces[j].bytes| <= pieces[i].start
  }

  /** After any sequence of additions, every content byte of every section is the byte that the
      pieces put at that address. */
  lemma {:induction false} AddAllBytes(pieces: seq<Piece>, i: nat, a: int)
    requires AllFit(pieces) && Disjoint(pieces) && i < |AddAll(pieces)|
    requires AddAll(pieces)[i].start <= a < AddAll(pieces)[i].realEnd
    ensures AddedByte(pieces, a) == Some(AddAll(pieces)[i].buffer[a - AddAll(pieces)[i].start])
    decreases |pieces|
  {
    hide Added, ReadSectionOk, ReadSectionsOk;
    var n := |pieces| - 1;
    var last, rest := pieces[n], pieces[..n];
    var before := AddAll(rest);
    var s := AddAll(pieces)[i];
    assert AddAll(pieces) == Added(before, last.start, last.bytes);
    AddedAt(before, last.start, last.bytes, i, a);
    if !FromNew(before, last.start, i, a) {
      AddAllBytes(rest, i, a);
      if last.start <= a < last.start + |last.bytes| {
        AddedByteFrom(rest, a);
      }
    }
  }

  /** Address a of section i holds a byte of the piece just added at start. */
  predicate FromNew(sections: seq<MemSection>, start: u64, i: nat, a: int) {
    i >= |sections| || (i == FirstEndingAt(sections, start) && a >= start)
  }

  lemma AddedAt(sections: seq<MemSection>, start: u64, bytes: seq<u8>, i: nat, a: int)
    requires ReadSectionsOk(sections) && start % 8 == 0 && start + |bytes| + 8 < 0x1_0000_0000_0000_0000
    requires i < |Added(sections, start, bytes)|
    requires Added(sections, start, bytes)[i].start <= a < Added(sections, start, bytes)[i].realEnd
    ensures var s := Added(sections, start, bytes)[i];
            && a - s.start < |s.buffer|
            && if FromNew(sections, start, i, a) then
                 start <= a < start + |bytes| && s.buffer[a - s.start] == bytes[a - start]
               else
                 && sections[i].start == s.start && a < sections[i].realEnd
                 && a - s.start < |sections[i].buffer|
                 && s.buffer[a - s.start] == sections[i].buffer[a - s.start]
  {
    AddedOk(sections, start, bytes);
    var after := Added(sections, start, bytes);
    hide Added;
    ContentAt(after[i], a);
    if i < |sections| {
      ContentAt(sections[i], a);
    }
  }

  lemma ContentAt(s: MemSection, a: int)
    requires ReadSectionOk(s)
    ensures |Content(s)| == s.realEnd - s.start
    ensures s.start <= a < s.realEnd ==> a - s.start < |s.buffer| && Content(s)[a - s.start] == s.buffer[a - s.start]
  {
  }

  lemma {:induction false} AddedByteFrom(pieces: seq<Piece>, a: int)
    requires AddedByte(pieces, a).Some?
    ensures exists j :: 0 <= j < |pieces| && pieces[j].start <= a < pieces[j].start + |pieces[j].bytes|
    decreases |pieces|
  {
    var n := |pieces| - 1;
    var last := pieces[n];
    if !(last.start <= a < last.start + |last.bytes|) {
      AddedByteFrom(pieces[..n], a);
      var j :| 0 <= j < n && pieces[..n][j].start <= a < pieces[..n][j].start + |pieces[..n][j].bytes|;
      assert pieces[j] == pieces[..n][j];
    }
  }

  class Mem {
    var readSections: seq<MemSection>
    var writeSection: MemSection
    var freeInput: u64

    ghost predicate Valid()
      reads this
    {
      RawMemory(readSections, writeSection, freeInput).Valid()
    }

    /** The memory as a value. */
    ghost function View(): Memory
      reads this
      requires Valid()
    {
      RawMemory(readSections, writeSection, freeInput)
    }

    constructor ()
      ensures readSections == [] && writeSection == MemSection(0, 0, 0, []) && freeInput == 0
    {
      readSections, writeSection, freeInput := [], MemSection(0, 0, 0, []), 0;
    }

    /** Adds bytes as a read section, or at the end of the section they continue. */
    method AddReadSection(start: u64, buffer: seq<u8>) returns (r: Outcome)
      requires ReadSectionsOk(readSections)
      requires start + |buffer| + 8 < 0x1_0000_0000_0000_0000
      modifies this`readSections
      ensures r.Panic? <==> start % 8 != 0
      ensures r.Done? ==> readSections == Added(old(readSections), start, buffer) && ReadSectionsOk(readSections)
      ensures r.Panic? ==> readSections == old(readSections)
    {
      if start % 8 != 0 {
        return Panic;
      }
      AddedOk(readSections, start, buffer);
      var end := start + |buffer|;
      var k := 0;
      while k < |readSections|
        invariant 0 <= k <= |readSections| && readSections == old(readSections)
        invariant forall j :: 0 <= j < k ==> readSections[j].realEnd != start
      {
        if readSections[k].realEnd == start {
          assert k == FirstEndingAt(readSections, start);
          var s := readSections[k];
          // s.realEnd is at most s.end, so the source's loop that pops padding does not run.
          s := s.(buffer := s.buffer + buffer, realEnd := s.realEnd + |buffer|, end := s.realEnd + |buffer|);
          assert s.buffer == Content(readSections[k]) + buffer;
          s := PadTo8(s);
          readSections := readSections[k := s];
          return Done;
        }
        k := k + 1;
      }
      var s := PadTo8(MemSection(start, end, end, buffer));
      readSections := readSections + [s];
      return Done;
    }

    /** Appends zeros until the end is a multiple of 8. */
    static method PadTo8(s: MemSection) returns (r: MemSection)
      requires s.end == s.realEnd == s.start + |s.buffer|
      requires s.end + 8 < 0x1_0000_0000_0000_0000
      ensures r == Padded(s.start, s.buffer)
    {
      r := s;
      ghost var n := 0;
      while r.end % 8 != 0
        invariant 0 <= n <= Padding(s.end)
        invariant r == s.(end := s.end + n, buffer := s.buffer + seq(n, _ => 0))
        decreases Padding(s.end) - n
      {
        r := r.(buffer := r.buffer + [0], end := r.end + 1);
        n := n + 1;
        assert seq(n - 1, _ => 0) + [0] == seq(n, _ => 0);
      }
      assert n == Padding(s.end);
    }

    /** The write section: zeroed, and set only once. */
    method AddWriteSection(start: u64, size: u64) returns (r: Outcome)
      requires start + size < 0x1_0000_0000_0000_0000
      modifies this`writeSection
      ensures r.Panic? <==> start % 8 != 0 || start == 0 || old(writeSection).start != 0
      ensures r.Done? ==>
                writeSection == MemSection(start, start + size, old(writeSection).realEnd, seq(size, _ => 0))
      ensures r.Panic? ==> writeSection == old(writeSection)
    {
      if start % 8 != 0 || start == 0 || writeSection.start != 0 {
        return Panic;
      }
      var mem: seq<u8> := seq(size, _ => 0);
      writeSection := writeSection.(start := start, end := start + |mem|, buffer := mem);
      return Done;
    }

    /** Binary search over the sorted sections finds the section of the access, if any. */
    method FindSection(addr: u64, width: nat) returns (found: Option<nat>)
      requires Valid() && width > 0
      ensures found == Find(readSections, addr, width)
    {
      var lo, hi := 0, |readSections|;
      while lo < hi
        invariant 0 <= lo <= hi <= |readSections|
        invariant forall j :: 0 <= j < lo ==> !readSections[j].Contains(addr, width)
        invariant forall j :: hi <= j < |readSections| ==> !readSections[j].Contains(addr, width)
      {
        var mid := (lo + hi) / 2;
        var s := readSections[mid];
        if addr < s.start {
          hi := mid;
        } else if addr + width > s.end {
          lo := mid + 1;
        } else {
          FindUnique(View(), addr, width, mid);
          return Some(mid);
        }
      }
      return None;
    }

    /** A read: the write section first, then the read sections. */
    method Read(addr: u64, width: nat) returns (r: Option<u64>)
      requires Valid()
      ensures r == MemoryModel.Read(View(), addr, width)
    {
      if !ValidWidth(width) {
        return None;
      }
      WidthBound(width);
      if addr >= writeSection.start && addr <= writeSection.end - width {
        return Some(writeSection.Load(addr, width));
      }
      var i := FindSection(addr, width);
      if i.None? {
        return None;
      }
      if addr == INPUT_ADDR && width == 8 {
        return Some(freeInput);
      }
      return Some(readSections[i.value].Load(addr, width));
    }

    /** A read, with the aligned words that are needed to prove it. */
    method ReadRequired(addr: u64, width: nat) returns (r: Option<(u64, seq<u64>)>)
      requires Valid()
      ensures r == MemoryModel.ReadRequired(View(), addr, width)
    {
      if !ValidWidth(width) {
        return None;
      }
      WidthBound(width);
      hide RequiredWords;
      var section := writeSection;
      if !(addr >= writeSection.start && addr <= writeSection.end - width) {
        var i := FindSection(addr, width);
        if i.None? {
          return None;
        }
        section := readSections[i.value];
      }
      var value := section.Load(addr, width);
      var words := AdditionalData(section, addr, width);
      if words.None? {
        return None;
      }
      return Some((value, words.value));
    }

    /** The additional data of an unaligned access in a section. */
    static method AdditionalData(section: MemSection, addr: u64, width: nat) returns (r: Option<seq<u64>>)
      requires section.Sized()
      ensures r == RequiredWords(section, addr, width)
    {
      WidthBound(8);
      var addrReq1 := addr - addr % 8;
      var addrReq2 := (addr + width - 1) - (addr + width - 1) % 8;
      var isFullAligned := addr % 4 == 0 && width == 8;
      var isSingleNotAligned := !isFullAligned && addrReq1 == addrReq2;
      var isDoubleNotAligned := !isFullAligned && !isSingleNotAligned;
      if isSingleNotAligned {
        if addrReq1 < section.start || addrReq1 + 8 > section.end {
          return None;
        }
        return Some([section.Load(addrReq1, 8)]);
      }
      if isDoubleNotAligned {
        if addrReq1 < section.start || addrReq1 + 8 > section.end {
          return None;
        }
        if addrReq2 < section.start || addrReq2 + 8 > section.end {
          return None;
        }
        return Some([section.Load(addrReq1, 8), section.Load(addrReq2, 8)]);
      }
      return Some([]);
    }

    /** A write: the read sections first, then the write section. */
    method WriteSilent(addr: u64, val: u64, width: nat) returns (r: Outcome)
      requires Valid()
      modifies this`readSections, this`writeSection
      ensures Valid()
      ensures MemoryModel.Write(old(View()), addr, val, width) == if r.Done? then Some(View()) else None
      ensures r.Panic? ==> View() == old(View())
    {
      if !ValidWidth(width) {
        return Panic;
      }
      var i := FindSection(addr, width);
      ghost var before := View();
      if i.Some? {
        var s := readSections[i.value];
        readSections := readSections[i.value := s.Splice(addr, LeBytes(val, width))];
      } else {
        if addr < writeSection.start || addr + width > writeSection.end {
          return Panic;
        }
        writeSection := writeSection.Splice(addr, LeBytes(val, width));
      }
      return Done;
    }
  }
}
