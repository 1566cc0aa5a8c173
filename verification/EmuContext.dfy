/** The memory a run starts with: the input, the read-only data of the program and zeroed RAM. */
module EmuContext {
  import opened Words
  import opened Wrappers
  import opened MemoryModel
  import opened MemoryLemmas
  import opened MemObject

  const MAX_INPUT_SIZE: u64 := 0x0800_0000

  function RamSection(): MemSection {
    MemSection(RAM_ADDR, RAM_ADDR + RAM_SIZE, 0, seq(RAM_SIZE, _ => 0))
  }

  /** The free-input word, the length of the input and the input itself. */
  function InputPieces(input: seq<u8>): seq<Piece> {
    [Piece(INPUT_ADDR, LeBytes(0, 8)), Piece(INPUT_ADDR + 8, LeBytes(|input|, 8)), Piece(INPUT_ADDR + 16, input)]
  }

  function InputBytes(input: seq<u8>): seq<u8> {
    LeBytes(0, 8) + LeBytes(|input|, 8) + input
  }

  // ---- sorting ----

  function SortByStart(sections: seq<MemSection>): seq<MemSection> {
    if sections == [] then []
    else
      var last := |sections| - 1;
      Insert(SortByStart(sections[..last]), sections[last])
  }

  /** Behind everything that does not start later. */
  function Insert(sorted: seq<MemSection>, s: MemSection): seq<MemSection> {
    if sorted == [] then [s]
    else
      var last := |sorted| - 1;
      if s.start < sorted[last].start then Insert(sorted[..last], s) + [sorted[last]] else sorted + [s]
  }

  ghost predicate InOrder(sections: seq<MemSection>) {
    forall i, j :: 0 <= i < j < |sections| ==> sections[i].end <= sections[j].start
  }

  ghost predicate AllApart(sections: seq<MemSection>) {
    forall i, j :: 0 <= i < j < |sections| ==> Apart(sections[i], sections[j])
  }

  /** Sections that hold at least one byte. */
  ghost predicate NonEmpty(sections: seq<MemSection>) {
    forall i :: 0 <= i < |sections| ==> sections[i].start < sections[i].realEnd <= sections[i].end
  }

  ghost predicate ApartFrom(sections: seq<MemSection>, s: MemSection) {
    forall i :: 0 <= i < |sections| ==> Apart(sections[i], s)
  }

  lemma {:induction false} InsertElements(sorted: seq<MemSection>, s: MemSection)
    ensures multiset(Insert(sorted, s)) == multiset(sorted) + multiset{s}
  {
    if sorted != [] {
      var last := |sorted| - 1;
      assert sorted == sorted[..last] + [sorted[last]];
      if s.start < sorted[last].start {
        InsertElements(sorted[..last], s);
      }
    }
  }

  lemma InsertBounded(sorted: seq<MemSection>, s: MemSection, bound: int)
    requires s.end <= bound && forall i :: 0 <= i < |sorted| ==> sorted[i].end <= bound
    ensures forall i :: 0 <= i < |Insert(sorted, s)| ==> Insert(sorted, s)[i].end <= bound
  {
    hide Insert;
    InsertElements(sorted, s);
    var r := Insert(sorted, s);
    forall i | 0 <= i < |r|
      ensures r[i].end <= bound
    {
      assert r[i] in multiset(r);
    }
  }

  lemma {:induction false} InsertKeeps(sorted: seq<MemSection>, s: MemSection)
    requires InOrder(sorted) && NonEmpty(sorted) && s.start < s.realEnd <= s.end && ApartFrom(sorted, s)
    ensures InOrder(Insert(sorted, s)) && NonEmpty(Insert(sorted, s))
  {
    if sorted != [] {
      var last := |sorted| - 1;
      if s.start < sorted[last].start {
        InsertKeeps(sorted[..last], s);
        InsertBounded(sorted[..last], s, sorted[last].start);
      } else {
        Appended(sorted, s);
      }
    }
  }

  lemma Appended(sorted: seq<MemSection>, s: MemSection)
    requires sorted != [] && InOrder(sorted) && NonEmpty(sorted) && s.start < s.realEnd <= s.end
    requires sorted[|sorted| - 1].end <= s.start
    ensures InOrder(sorted + [s]) && NonEmpty(sorted + [s])
  {
    var last := |sorted| - 1;
    forall i | 0 <= i < |sorted|
      ensures sorted[i].end <= s.start
    {
      if i < last {
        assert sorted[i].end <= sorted[last].start;
      }
    }
  }

  /** Sorting keeps the sections, and puts disjoint ones in address order. */
  lemma {:induction false} SortKeeps(sections: seq<MemSection>)
    requires AllApart(sections) && NonEmpty(sections)
    ensures multiset(SortByStart(sections)) == multiset(sections)
    ensures InOrder(SortByStart(sections)) && NonEmpty(SortByStart(sections))
  {
    if sections != [] {
      var last := |sections| - 1;
      assert sections == sections[..last] + [sections[last]];
      hide Insert;
      SortKeeps(sections[..last]);
      var r := SortByStart(sections[..last]);
      forall i | 0 <= i < |r|
        ensures Apart(r[i], sections[last])
      {
        assert r[i] in multiset(r);
      }
      InsertKeeps(r, sections[last]);
      InsertElements(r, sections[last]);
    }
  }

  // ---- merged sections stay apart ----

  ghost predicate AllNonEmpty(pieces: seq<Piece>) {
    forall i :: 0 <= i < |pieces| ==> pieces[i].bytes != []
  }

  predicate Clear(s: MemSection, start: int, end: int) {
    s.realEnd <= start || end <= s.start
  }

  /** A piece that shares no address with the earlier ones shares none with their sections. */
  lemma NewPieceClear(pieces: seq<Piece>, start: int, end: int, i: nat)
    requires AllFit(pieces) && Disjoint(pieces) && i < |AddAll(pieces)| && start < end
    requires AddAll(pieces)[i].start < AddAll(pieces)[i].realEnd
    requires forall j :: 0 <= j < |pieces| ==>
               pieces[j].start + |pieces[j].bytes| <= start || end <= pieces[j].start
    ensures Clear(AddAll(pieces)[i], start, end)
  {
    hide AddAll;
    var s := AddAll(pieces)[i];
    var a := if s.start < start then start else s.start;
    if s.start <= a < s.realEnd && a < end {
      AddAllBytes(pieces, i, a);
      AddedByteFrom(pieces, a);
    }
  }

  lemma AlignedEnd(s: MemSection, start: int)
    requires ReadSectionOk(s) && s.realEnd <= start && start % 8 == 0
    ensures s.end <= start
  {
  }

  /** Adding a piece next to sections it is clear of keeps all sections apart. */
  lemma AddedApart(sections: seq<MemSection>, start: u64, bytes: seq<u8>)
    requires ReadSectionsOk(sections) && Piece(start, bytes).Fits() && bytes != []
    requires AllApart(sections) && NonEmpty(sections)
    requires forall i :: 0 <= i < |sections| ==> Clear(sections[i], start, start + |bytes|)
    ensures AllApart(Added(sections, start, bytes)) && NonEmpty(Added(sections, start, bytes))
  {
    AddedOk(sections, start, bytes);
    AddedEnd(sections, start, bytes);
    var k, after := FirstEndingAt(sections, start), Added(sections, start, bytes);
    hide Added, Content, Padded;
    forall i | 0 <= i < |sections| && i != k
      ensures Apart(sections[i], after[k])
    {
      if sections[i].realEnd <= start {
        AlignedEnd(sections[i], start);
      } else {
        AlignedEnd(after[k], sections[i].start);
      }
    }
    assert forall i :: 0 <= i < |sections| && i != k ==> after[i] == sections[i];
  }

  lemma AddedEnd(sections: seq<MemSection>, start: u64, bytes: seq<u8>)
    requires ReadSectionsOk(sections) && Piece(start, bytes).Fits()
    ensures var k, after := FirstEndingAt(sections, start), Added(sections, start, bytes);
            k < |after| && after[k].realEnd == start + |bytes| &&
            (k == |sections| ==> |after| == k + 1 && after[k].start == start)
  {
  }

  lemma AddAllLast(pieces: seq<Piece>)
    requires pieces != [] && AllFit(pieces)
    ensures var n := |pieces| - 1;
            AddAll(pieces) == Added(AddAll(pieces[..n]), pieces[n].start, pieces[n].bytes)
  {
    hide Added;
  }

  lemma {:induction false} AddAllApart(pieces: seq<Piece>)
    requires AllFit(pieces) && Disjoint(pieces) && AllNonEmpty(pieces)
    ensures AllApart(AddAll(pieces)) && NonEmpty(AddAll(pieces))
  {
    if pieces != [] {
      var n := |pieces| - 1;
      var last, rest := pieces[n], pieces[..n];
      AddAllApart(rest);
      forall i | 0 <= i < |AddAll(rest)|
        ensures Clear(AddAll(rest)[i], last.start, last.start + |last.bytes|)
      {
        NewPieceClear(rest, last.start, last.start + |last.bytes|, i);
      }
      hide AddAll, Added, AllApart, NonEmpty;
      assert AddAll(pieces) == Added(AddAll(rest), last.start, last.bytes) by { AddAllLast(pieces); }
      AddedApart(AddAll(rest), last.start, last.bytes);
    }
  }

  // ---- the initial memory ----

  /** The pieces with the three input pieces joined. */
  function Joined(roData: seq<Piece>, input: seq<u8>): seq<Piece> {
    [Piece(INPUT_ADDR, InputBytes(input))] + roData
  }

  function AllPieces(roData: seq<Piece>, input: seq<u8>): seq<Piece> {
    InputPieces(input) + roData
  }

  /** A program whose read-only data does not overlap itself, the input or the RAM. */
  ghost predicate Loadable(roData: seq<Piece>, input: seq<u8>) {
    && |input| <= MAX_INPUT_SIZE - 16
    && AllFit(roData) && AllNonEmpty(roData) && Disjoint(Joined(roData, input))
    && (forall i :: 0 <= i < |roData| ==> ClearOfRam(roData[i]))
  }

  predicate ClearOfRam(piece: Piece) {
    8 <= piece.start && (piece.start + |piece.bytes| <= RAM_ADDR || RAM_ADDR + RAM_SIZE <= piece.start)
  }

  ghost function InitialSections(roData: seq<Piece>, input: seq<u8>): seq<MemSection>
    requires |input| <= MAX_INPUT_SIZE - 16 && AllFit(roData)
  {
    SortByStart(AddAll(AllPieces(roData, input)))
  }

  ghost function InitialMemory(roData: seq<Piece>, input: seq<u8>): Memory
    requires Loadable(roData, input)
  {
    InitialValid(roData, input);
    RawMemory(InitialSections(roData, input), RamSection(), 0)
  }

  /** The input pieces continue each other, so they form one section. */
  lemma InputMerged(input: seq<u8>)
    requires |input| <= MAX_INPUT_SIZE - 16
    ensures AddAll(InputPieces(input)) == AddAll([Piece(INPUT_ADDR, InputBytes(input))])
  {
    hide LeBytes;
    var p := InputPieces(input);
    var zero, len := LeBytes(0, 8), LeBytes(|input|, 8);
    assert p[..2][..1] == p[..1] && p[..1][..0] == [];
    assert p[..3] == p;
    assert AddAll(p[..1]) == [Padded(INPUT_ADDR, zero)];
    assert AddAll(p[..2]) == Added(AddAll(p[..1]), INPUT_ADDR + 8, len);
    assert AddAll(p[..2]) == [Padded(INPUT_ADDR, zero + len)];
    assert AddAll(p) == Added(AddAll(p[..2]), INPUT_ADDR + 16, input);
    assert zero + len + input == InputBytes(input);
  }

  lemma {:induction false} AddAllCongruent(x: seq<Piece>, y: seq<Piece>, z: seq<Piece>)
    requires AllFit(x) && AllFit(y) && AllFit(z) && AddAll(x) == AddAll(y)
    ensures AddAll(x + z) == AddAll(y + z)
    decreases |z|
  {
    hide Added;
    if z == [] {
      assert x + z == x && y + z == y;
    } else {
      var last := |z| - 1;
      AddAllCongruent(x, y, z[..last]);
      assert (x + z)[..|x + z| - 1] == x + z[..last];
      assert (y + z)[..|y + z| - 1] == y + z[..last];
    }
  }

  /** Every memory a run starts from is well formed: sorted, disjoint, 8-aligned sections. */
  lemma InitialValid(roData: seq<Piece>, input: seq<u8>)
    requires Loadable(roData, input)
    ensures RawMemory(InitialSections(roData, input), RamSection(), 0).Valid()
  {
    hide LeBytes, Added, Padded, SortByStart;
    var joined := Joined(roData, input);
    InputMerged(input);
    AddAllCongruent(InputPieces(input), [Piece(INPUT_ADDR, InputBytes(input))], roData);
    AddAllApart(joined);
    var sections := AddAll(joined);
    SortKeeps(sections);
    var sorted := SortByStart(sections);
    hide AddAll;
    forall i | 0 <= i < |sections|
      ensures SectionFits(sections[i])
    {
      NewPieceClear(joined, RAM_ADDR, RAM_ADDR + RAM_SIZE, i);
      SectionStart(joined, i);
      AlignedEnds(sections[i]);
    }
    forall i | 0 <= i < |sorted|
      ensures SectionFits(sorted[i])
    {
      assert sorted[i] in multiset(sorted);
    }
  }

  predicate SectionFits(s: MemSection) {
    s.Ok() && Apart(s, RamSection())
  }

  lemma AlignedEnds(s: MemSection)
    requires ReadSectionOk(s) && Clear(s, RAM_ADDR, RAM_ADDR + RAM_SIZE) && 8 <= s.start
    ensures SectionFits(s)
  {
    if s.realEnd <= RAM_ADDR {
      AlignedEnd(s, RAM_ADDR);
    }
  }

  /** A section starts where one of the pieces does. */
  lemma {:induction false} SectionStart(pieces: seq<Piece>, i: nat)
    requires AllFit(pieces) && i < |AddAll(pieces)|
    ensures exists j :: 0 <= j < |pieces| && pieces[j].start == AddAll(pieces)[i].start
    decreases |pieces|
  {
    var n := |pieces| - 1;
    var last, before := pieces[n], AddAll(pieces[..n]);
    AddedOk(before, last.start, last.bytes);
    AddedEnd(before, last.start, last.bytes);
    hide Added;
    if i < |before| {
      SectionStart(pieces[..n], i);
      var j :| 0 <= j < n && pieces[..n][j].start == before[i].start;
      assert pieces[j] == pieces[..n][j];
    }
  }

  // ---- what it holds ----

  /** No added byte is lost. */
  lemma {:induction false} AddAllCovers(pieces: seq<Piece>, a: int) returns (i: nat)
    requires AllFit(pieces) && AddedByte(pieces, a).Some?
    ensures i < |AddAll(pieces)| && AddAll(pieces)[i].start <= a < AddAll(pieces)[i].realEnd
    decreases |pieces|
  {
    hide Added;
    AddAllLast(pieces);
    var n := |pieces| - 1;
    var last, before := pieces[n], AddAll(pieces[..n]);
    AddedOk(before, last.start, last.bytes);
    AddedEnd(before, last.start, last.bytes);
    if last.start <= a < last.start + |last.bytes| {
      i := FirstEndingAt(before, last.start);
    } else {
      i := AddAllCovers(pieces[..n], a);
    }
  }

  /** The initial memory holds the input, preceded by its length, and the read-only data, byte for
      byte, and zeros in RAM. */
  lemma InitialBytes(roData: seq<Piece>, input: seq<u8>, a: int)
    requires Loadable(roData, input)
    ensures AddedByte(Joined(roData, input), a).Some? ==>
              Byte(InitialMemory(roData, input), a) == AddedByte(Joined(roData, input), a)
    ensures RAM_ADDR <= a < RAM_ADDR + RAM_SIZE ==> Byte(InitialMemory(roData, input), a) == Some(0)
  {
    hide LeBytes, Added, SortByStart, AddAll;
    InitialValid(roData, input);
    var m, joined := InitialMemory(roData, input), Joined(roData, input);
    if AddedByte(joined, a).Some? {
      SameSections(roData, input);
      var i := AddAllCovers(joined, a);
      AddAllBytes(joined, i, a);
      AddAllApart(joined);
      SortKeeps(AddAll(joined));
      var s := AddAll(joined)[i];
      assert s in multiset(m.readSections);
      var k :| 0 <= k < |m.readSections| && m.readSections[k] == s;
      SectionByte(m, k, a);
    }
  }

  lemma SameSections(roData: seq<Piece>, input: seq<u8>)
    requires |input| <= MAX_INPUT_SIZE - 16 && AllFit(roData)
    ensures AddAll(AllPieces(roData, input)) == AddAll(Joined(roData, input))
  {
    InputMerged(input);
    hide AddAll;
    AddAllCongruent(InputPieces(input), [Piece(INPUT_ADDR, InputBytes(input))], roData);
  }

  /** The input part of the initial memory. */
  lemma InputAt(roData: seq<Piece>, input: seq<u8>, k: nat)
    requires Loadable(roData, input) && k < |input|
    ensures Byte(InitialMemory(roData, input), INPUT_ADDR + 16 + k) == Some(input[k])
  {
    hide LeBytes, InitialMemory, AddAll;
    var joined, a := Joined(roData, input), INPUT_ADDR + 16 + k;
    InitialBytes(roData, input, a);
    assert InputBytes(input)[16 + k] == input[k];
    FirstPiece(joined, a);
  }

  /** In front of it, its length as a little-endian number. */
  lemma InputLength(roData: seq<Piece>, input: seq<u8>, k: nat)
    requires Loadable(roData, input) && k < 8
    ensures Byte(InitialMemory(roData, input), INPUT_ADDR + 8 + k) == Some(|input| / Pow256(k) % 256)
  {
    hide LeBytes, InitialMemory, AddAll, Pow256;
    var joined, a := Joined(roData, input), INPUT_ADDR + 8 + k;
    InitialBytes(roData, input, a);
    assert InputBytes(input)[8 + k] == LeBytes(|input|, 8)[k];
    LeBytesDigit(|input|, 8, k);
    FirstPiece(joined, a);
  }

  /** Later disjoint pieces leave the first one alone. */
  lemma {:induction false} FirstPiece(pieces: seq<Piece>, a: int)
    requires pieces != [] && Disjoint(pieces) && pieces[0].start <= a < pieces[0].start + |pieces[0].bytes|
    ensures AddedByte(pieces, a) == Some(pieces[0].bytes[a - pieces[0].start])
    decreases |pieces|
  {
    var n := |pieces| - 1;
    if n > 0 {
      FirstPiece(pieces[..n], a);
    }
  }

  /** A byte of some piece was added. */
  lemma {:induction false} PieceAdded(pieces: seq<Piece>, j: nat, a: int)
    requires j < |pieces| && pieces[j].start <= a < pieces[j].start + |pieces[j].bytes|
    ensures AddedByte(pieces, a).Some?
    decreases |pieces|
  {
    var n := |pieces| - 1;
    if j < n {
      assert pieces[..n][j] == pieces[j];
      PieceAdded(pieces[..n], j, a);
    }
  }

  /** Sections end at multiples of 8, so the words of a piece can be accessed, even one that the
      piece does not fill. */
  lemma WordAvailable(roData: seq<Piece>, input: seq<u8>, j: nat, a: int)
    requires Loadable(roData, input) && j < |roData|
    requires roData[j].start <= a < roData[j].start + |roData[j].bytes| && a % 8 == 0
    ensures Accessible(InitialMemory(roData, input), a, 8)
  {
    hide LeBytes, Added, SortByStart, AddAll, AddedByte;
    InitialValid(roData, input);
    var m, joined := InitialMemory(roData, input), Joined(roData, input);
    SameSections(roData, input);
    assert joined[j + 1] == roData[j];
    PieceAdded(joined, j + 1, a);
    var i := AddAllCovers(joined, a);
    AddAllApart(joined);
    SortKeeps(AddAll(joined));
    var s := AddAll(joined)[i];
    assert s in multiset(m.readSections);
    var k :| 0 <= k < |m.readSections| && m.readSections[k] == s;
    WordContained(s, a);
    assert m.readSections[k].Contains(a, 8);
  }

  lemma WordContained(s: MemSection, a: int)
    requires ReadSectionOk(s) && s.start <= a < s.realEnd && a % 8 == 0
    ensures s.Contains(a, 8)
  {
    AlignedUp(a + 1, s.end);
  }

  // ---- building it ----

  /** Builds the memory of a run. It panics when the input is too big or read-only data does not
      start at a multiple of 8. */
  method CreateMemory(roData: seq<Piece>, input: seq<u8>) returns (r: Option<Mem>)
    requires forall i :: 0 <= i < |roData| ==> roData[i].start + |roData[i].bytes| + 8 < 0x1_0000_0000_0000_0000
    ensures r.Some? <==> |input| <= MAX_INPUT_SIZE - 16 && AllFit(roData)
    ensures r.Some? ==> fresh(r.value) && r.value.readSections == InitialSections(roData, input)
    ensures r.Some? ==> r.value.writeSection == RamSection() && r.value.freeInput == 0
  {
    hide LeBytes, Added, AddAll, SortByStart;
    if |input| > MAX_INPUT_SIZE - 16 {
      return None;
    }
    var mem := new Mem();
    ghost var pieces := AllPieces(roData, input);
    var k := 0;
    AddAllNone();
    while k < 3 + |roData|
      invariant 0 <= k <= |pieces| && fresh(mem) && mem.writeSection == MemSection(0, 0, 0, []) && mem.freeInput == 0
      invariant AllFit(pieces[..k]) && mem.readSections == AddAll(pieces[..k])
    {
      var piece := if k < 3 then InputPieces(input)[k] else roData[k - 3];
      assert piece == pieces[k] && pieces[..k + 1][..k] == pieces[..k];
      var w := mem.AddReadSection(piece.start, piece.bytes);
      if w.Panic? {
        assert !roData[k - 3].Fits();
        return None;
      }
      AddAllLast(pieces[..k + 1]);
      k := k + 1;
    }
    assert pieces[..k] == pieces;
    AllFitSplit(roData, input);
    var w := mem.AddWriteSection(RAM_ADDR, RAM_SIZE);
    mem.readSections := SortByStart(mem.readSections);
    return Some(mem);
  }

  lemma AddAllNone()
    ensures AddAll([]) == []
  {
  }

  lemma AllFitSplit(roData: seq<Piece>, input: seq<u8>)
    requires AllFit(AllPieces(roData, input))
    ensures AllFit(roData)
  {
    forall i | 0 <= i < |roData|
      ensures roData[i].Fits()
    {
      assert AllPieces(roData, input)[3 + i] == roData[i];
    }
  }
}
