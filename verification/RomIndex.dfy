/** The fetch indexes of a rom: three vectors and a sorted list of addresses, built from the map. */
module RomIndex {
  import opened Words
  import opened Wrappers
  import opened MemoryModel
  import opened ZiskInst
  import opened Machine
  import opened MicroExec
  import opened Transpiler
  import opened Simulation
  import ChunkReplay

  predicate Aligned(k: u64) { k % 4 == 0 }

  predicate InRange(k: u64) {
    ROM_ENTRY <= k < ROM_ADDR_MAX
  }

  predicate IsBios(k: u64) {
    k < ROM_ADDR && Aligned(k)
  }

  predicate IsProgram(k: u64) {
    ROM_ADDR <= k && Aligned(k)
  }

  /** Where an instruction is kept: which vector, and where in it. */
  datatype Place = Place(vector: nat, index: int)

  function PlaceOf(offsetNa: u64, k: u64): Place {
    if !Aligned(k) then Place(2, k - offsetNa)
    else if k < ROM_ADDR then Place(0, (k - ROM_ENTRY) / 4)
    else Place(1, (k - ROM_ADDR) / 4)
  }

  /** Different addresses have different places. */
  lemma PlaceInjective(offsetNa: u64, k: u64, k': u64)
    requires PlaceOf(offsetNa, k) == PlaceOf(offsetNa, k')
    ensures k == k'
  {
  }

  function Vector(rom: Rom, v: nat): seq<Inst> {
    if v == 0 then rom.entry else if v == 1 then rom.program else rom.notAligned
  }

  function Kept(rom: Rom, k: u64): Option<Inst> {
    var place := PlaceOf(rom.offsetNa, k);
    At(Vector(rom, place.vector), place.index)
  }

  /** Instructions are fetched from where they are kept, except unaligned ones below the program. */
  lemma FetchedWhereKept(rom: Rom, k: u64)
    requires ROM_ENTRY <= k && (Aligned(k) || ROM_ADDR <= k)
    ensures GetInstruction(rom, k) == Kept(rom, k)
  {
  }

  // ---- scanning the keys ----

  /** What the scan of a set of keys remembers. */
  datatype Scan = Scan(maxEntry: u64, maxProgram: u64, minNa: u64, maxNa: u64)

  function NoKeys(): Scan {
    Scan(0, 0, M64, 0)
  }

  ghost predicate ScanOk(keys: set<u64>, s: Scan) {
    && (forall k :: k in keys && IsBios(k) ==> k <= s.maxEntry)
    && (s.maxEntry == 0 || (s.maxEntry in keys && IsBios(s.maxEntry)))
    && (forall k :: k in keys && IsProgram(k) ==> k <= s.maxProgram)
    && (s.maxProgram == 0 || (s.maxProgram in keys && IsProgram(s.maxProgram)))
    && (forall k :: k in keys && !Aligned(k) ==> s.minNa <= k <= s.maxNa)
    && (s.minNa == M64 || (s.minNa in keys && !Aligned(s.minNa)))
  }

  function MaxOf(x: u64, y: u64): u64 { if x < y then y else x }

  function MinOf(x: u64, y: u64): u64 { if x < y then x else y }

  function ScanKey(s: Scan, addr: u64): Scan {
    if addr % 4 != 0 then s.(minNa := MinOf(s.minNa, addr), maxNa := MaxOf(s.maxNa, addr))
    else if addr < ROM_ADDR then s.(maxEntry := MaxOf(s.maxEntry, addr))
    else s.(maxProgram := MaxOf(s.maxProgram, addr))
  }

  lemma ScanKeyOk(keys: set<u64>, s: Scan, addr: u64)
    requires ScanOk(keys, s)
    ensures ScanOk(keys + {addr}, ScanKey(s, addr))
  {
  }

  ghost predicate Distinct(list: seq<u64>) {
    forall i, j :: 0 <= i < j < |list| ==> list[i] != list[j]
  }

  /** A list of all keys, each once. */
  ghost predicate Lists(list: seq<u64>, keys: set<u64>) {
    Distinct(list) && forall k :: k in list <==> k in keys
  }

  // ---- sorting ----

  function InsertPc(list: seq<u64>, pc: u64): seq<u64> {
    if list == [] then [pc]
    else
      var last := |list| - 1;
      if pc < list[last] then InsertPc(list[..last], pc) + [list[last]] else list + [pc]
  }

  function SortPcs(list: seq<u64>): seq<u64> {
    if list == [] then []
    else InsertPc(SortPcs(list[..|list| - 1]), list[|list| - 1])
  }

  ghost predicate Increasing(list: seq<u64>) {
    forall i, j :: 0 <= i < j < |list| ==> list[i] < list[j]
  }

  lemma {:induction false} InsertPcKeeps(list: seq<u64>, pc: u64)
    requires Increasing(list) && pc !in list
    ensures Increasing(InsertPc(list, pc)) && forall k :: k in InsertPc(list, pc) <==> k in list || k == pc
  {
    if list != [] {
      var last := |list| - 1;
      assert list == list[..last] + [list[last]];
      if pc < list[last] {
        InsertPcKeeps(list[..last], pc);
        var r := InsertPc(list[..last], pc);
        assert forall i :: 0 <= i < |r| ==> r[i] in r;
      }
    }
  }

  /** Sorting distinct addresses makes them strictly increasing. */
  lemma {:induction false} SortPcsKeeps(list: seq<u64>)
    requires Distinct(list)
    ensures Increasing(SortPcs(list)) && forall k :: k in SortPcs(list) <==> k in list
  {
    if list != [] {
      var last := |list| - 1;
      assert list == list[..last] + [list[last]];
      SortPcsKeeps(list[..last]);
      InsertPcKeeps(SortPcs(list[..last]), list[last]);
    }
  }

  // ---- filling the vectors ----

  /** A rom with the instruction kept at address k replaced. */
  function Replaced(rom: Rom, place: Place, x: Inst): Rom
    requires 0 <= place.index < |Vector(rom, place.vector)|
  {
    if place.vector == 0 then rom.(entry := rom.entry[place.index := x])
    else if place.vector == 1 then rom.(program := rom.program[place.index := x])
    else rom.(notAligned := rom.notAligned[place.index := x])
  }

  lemma ReplacedKeeps(rom: Rom, k: u64, x: Inst, k': u64)
    requires Kept(rom, k).Some?
    ensures Kept(Replaced(rom, PlaceOf(rom.offsetNa, k), x), k') == if k == k' then Some(x) else Kept(rom, k')
  {
    if k != k' && PlaceOf(rom.offsetNa, k) == PlaceOf(rom.offsetNa, k') {
      PlaceInjective(rom.offsetNa, k, k');
    }
  }

  // ---- what the vectors hold ----

  /** Every key has a place inside its vector. */
  ghost predicate Fits(rom: Rom, keys: set<u64>) {
    forall k :: k in keys ==> Kept(rom, k).Some?
  }

  /** Only filler lacks a function, only instructions that stay where they are end a run, and
      register operands are main registers. */
  predicate Sane(x: Inst) {
    (x.op.NoFunc? ==> ChunkReplay.IsFiller(x)) && (x.end ==> IsLast(x)) && UsesMainRegs(x)
  }

  ghost predicate AllSane(rom: Rom) {
    && (forall j :: 0 <= j < |rom.entry| ==> Sane(rom.entry[j]) && Aligned(rom.entry[j].paddr))
    && (forall j :: 0 <= j < |rom.program| ==> Sane(rom.program[j]))
    && (forall j :: 0 <= j < |rom.notAligned| ==> Sane(rom.notAligned[j]))
  }

  predicate KeptAs(rom: Rom, k: u64, i: Inst) {
    Kept(rom, k).Some? && SameInst(Kept(rom, k).value, i)
  }

  ghost predicate KeepsAll(rom: Rom, insts: Insts, keys: set<u64>)
    requires keys <= insts.Keys
  {
    forall k :: k in keys ==> KeptAs(rom, k, insts[k])
  }

  lemma ReplacedFits(rom: Rom, keys: set<u64>, place: Place, x: Inst)
    requires Fits(rom, keys) && 0 <= place.index < |Vector(rom, place.vector)|
    ensures Fits(Replaced(rom, place, x), keys)
  {
    var rom' := Replaced(rom, place, x);
    forall k | k in keys
      ensures Kept(rom', k).Some?
    {
      SameSizes(rom, place, x, PlaceOf(rom.offsetNa, k).vector);
    }
  }

  lemma SameSizes(rom: Rom, place: Place, x: Inst, v: nat)
    requires 0 <= place.index < |Vector(rom, place.vector)|
    ensures |Vector(Replaced(rom, place, x), v)| == |Vector(rom, v)|
    ensures Replaced(rom, place, x).offsetNa == rom.offsetNa
  {
  }

  lemma ReplacedSane(rom: Rom, place: Place, x: Inst)
    requires AllSane(rom) && 0 <= place.index < |Vector(rom, place.vector)|
    requires Sane(x) && (place.vector == 0 ==> Aligned(x.paddr))
    ensures AllSane(Replaced(rom, place, x))
  {
    hide Sane;
  }

  /** The vectors before anything is put in them, big enough for all keys. */
  function Empty(s: Scan): Rom
    requires ROM_ENTRY <= s.maxEntry && ROM_ADDR <= s.maxProgram
    requires s.minNa != M64 ==> s.minNa <= s.maxNa
  {
    Rom(seq((s.maxEntry - ROM_ENTRY) / 4 + 1, _ => DefaultInst()),
        seq((s.maxProgram - ROM_ADDR) / 4 + 1, _ => DefaultInst()),
        s.minNa,
        seq(if s.minNa == M64 then 0 else s.maxNa - s.minNa + 1, _ => DefaultInst()))
  }

  lemma EmptyFits(keys: set<u64>, s: Scan)
    requires ScanOk(keys, s) && ROM_ENTRY <= s.maxEntry && ROM_ADDR <= s.maxProgram
    requires forall k :: k in keys ==> InRange(k)
    ensures s.minNa != M64 ==> s.minNa <= s.maxNa
    ensures Fits(Empty(s), keys) && AllSane(Empty(s))
  {
    forall k | k in keys
      ensures Kept(Empty(s), k).Some?
    {
      if Aligned(k) {
        QuotientOrder(k - (if k < ROM_ADDR then ROM_ENTRY else ROM_ADDR),
                      (if k < ROM_ADDR then s.maxEntry else s.maxProgram) - (if k < ROM_ADDR then ROM_ENTRY else ROM_ADDR));
      }
    }
  }

  lemma QuotientOrder(x: int, y: int)
    requires 0 <= x <= y
    ensures 0 <= x / 4 <= y / 4
  {
  }

  // ---- linking ----

  /** Where get_mut_instruction looks for an address. */
  function FetchPlace(rom: Rom, pc: u64): Place {
    if pc >= ROM_ADDR then
      if Aligned(pc) then Place(1, (pc - ROM_ADDR) / 4) else Place(2, pc - rom.offsetNa)
    else Place(0, (pc - ROM_ENTRY) / 4)
  }

  ghost predicate BiosAligned(keys: set<u64>) {
    forall k :: k in keys && k < ROM_ADDR ==> Aligned(k)
  }

  /** The first n instructions of the list point back to their position. */
  ghost predicate Linked(rom: Rom, list: seq<u64>, n: nat)
    requires n <= |list|
  {
    forall j :: 0 <= j < n ==> LinkedAt(rom, list[j], j)
  }

  predicate LinkedAt(rom: Rom, pc: u64, j: nat) {
    Kept(rom, pc).Some? && Kept(rom, pc).value.sortedPcListIndex == j
  }

  function Labelled(x: Inst, j: nat): Inst {
    x.(sortedPcListIndex := j)
  }

  lemma LabelledSame(x: Inst, j: nat)
    ensures SameInst(Labelled(x, j), x) && (Sane(x) ==> Sane(Labelled(x, j))) && Labelled(x, j).paddr == x.paddr
  {
  }

  lemma SameTransitive(x: Inst, y: Inst, z: Inst)
    requires SameInst(x, y) && SameInst(y, z)
    ensures SameInst(x, z)
  {
  }

  /** Labelling any slot keeps all instructions in their places. */
  lemma LabelKeeps(rom: Rom, insts: Insts, keys: set<u64>, place: Place, j: nat)
    requires keys <= insts.Keys && KeepsAll(rom, insts, keys) && 0 <= place.index < |Vector(rom, place.vector)|
    ensures KeepsAll(Replaced(rom, place, Labelled(Vector(rom, place.vector)[place.index], j)), insts, keys)
  {
    var x := Vector(rom, place.vector)[place.index];
    var rom' := Replaced(rom, place, Labelled(x, j));
    LabelledSame(x, j);
    hide SameInst, Labelled;
    forall k | k in keys
      ensures KeptAs(rom', k, insts[k])
    {
      if PlaceOf(rom.offsetNa, k) == place {
        SameTransitive(Labelled(x, j), x, insts[k]);
      }
    }
  }

  lemma LabelLinks(rom: Rom, list: seq<u64>, n: nat)
    requires n < |list| && Linked(rom, list, n) && Increasing(list) && Kept(rom, list[n]).Some?
    ensures var place := PlaceOf(rom.offsetNa, list[n]);
            Linked(Replaced(rom, place, Labelled(Vector(rom, place.vector)[place.index], n)), list, n + 1)
  {
    var pc := list[n];
    var place := PlaceOf(rom.offsetNa, pc);
    var x := Labelled(Vector(rom, place.vector)[place.index], n);
    hide PlaceOf, Replaced, Kept, Vector;
    forall j | 0 <= j < n + 1
      ensures LinkedAt(Replaced(rom, place, x), list[j], j)
    {
      ReplacedKeeps(rom, pc, x, list[j]);
    }
  }

  // ---- the result ----

  /** The vectors serve every instruction from its place, exactly when the BIOS has no unaligned
      addresses: below the program, fetching ignores the two low bits. */
  lemma FetchesExactly(rom: Rom, insts: Insts)
    requires KeepsAll(rom, insts, insts.Keys) && AllSane(rom) && Genuine(insts)
    requires forall k :: k in insts ==> InRange(k)
    ensures Fetches(rom, insts) <==> BiosAligned(insts.Keys)
  {
    hide SameInst, Sane, Kept, GetInstruction;
    if BiosAligned(insts.Keys) {
      forall k | k in insts
        ensures FetchedAs(rom, k, insts[k])
      {
        FetchedWhereKept(rom, k);
        assert KeptAs(rom, k, insts[k]);
      }
    }
    if Fetches(rom, insts) {
      forall k | k in insts && k < ROM_ADDR
        ensures Aligned(k)
      {
        FetchesAt(rom, insts, k);
        BiosFetch(rom, k);
        SamePaddr(GetInstruction(rom, k).value, insts[k]);
      }
    }
  }

  lemma BiosFetch(rom: Rom, k: u64)
    requires AllSane(rom) && InRange(k) && k < ROM_ADDR && GetInstruction(rom, k).Some?
    ensures Aligned(GetInstruction(rom, k).value.paddr)
  {
    hide Sane;
  }

  lemma SamePaddr(x: Inst, y: Inst)
    requires SameInst(x, y)
    ensures x.paddr == y.paddr
  {
    assert x.(sortedPcListIndex := 0).paddr == x.paddr;
  }

  /** Filler is only found where there is no instruction, and it is harmless. */
  lemma IndexWellBuilt(rom: Rom)
    requires AllSane(rom)
    ensures ChunkReplay.WellBuilt(rom)
  {
    hide ChunkReplay.IsFiller, IsLast, UsesMainRegs;
    forall pc: u64
      ensures ChunkReplay.FillerAt(rom, pc) && ChunkReplay.LastAt(rom, pc) && ChunkReplay.MainRegsAt(rom, pc)
    {
      if GetInstruction(rom, pc).Some? {
        assert Sane(GetInstruction(rom, pc).value);
      }
    }
  }

  /** Everything the indexes are for. */
  ghost predicate Indexed(insts: Insts, rom: Rom, list: seq<u64>) {
    && (forall k :: k in insts ==> InRange(k))
    && KeepsAll(rom, insts, insts.Keys) && AllSane(rom)
    && Increasing(list) && (forall k :: k in list <==> k in insts)
    && (BiosAligned(insts.Keys) ==> Linked(rom, list, |list|))
  }

  ghost predicate HasKeys(keys: set<u64>) {
    && (forall k :: k in keys ==> InRange(k))
    && (exists k :: k in keys && IsBios(k)) && (exists k :: k in keys && IsProgram(k))
  }

  /** The largest aligned addresses below and inside the program. */
  ghost predicate LargestKeys(keys: set<u64>, maxBiosPc: u64, maxProgramPc: u64) {
    && maxBiosPc in keys && IsBios(maxBiosPc) && (forall k :: k in keys && IsBios(k) ==> k <= maxBiosPc)
    && maxProgramPc in keys && IsProgram(maxProgramPc) && (forall k :: k in keys && IsProgram(k) ==> k <= maxProgramPc)
  }

  class ZiskRom {
    var insts: Insts
    var rom: Rom
    var sortedPcList: seq<u64>
    var maxBiosPc: u64
    var maxProgramPc: u64

    constructor (insts: Insts)
      ensures this.insts == insts
    {
      this.insts := insts;
      rom := Rom([], [], 0, []);
      sortedPcList := [];
      maxBiosPc, maxProgramPc := 0, 0;
    }

    /** Visits all keys, in no particular order. None: a key is out of range. */
    method ScanKeys() returns (r: Option<Scan>, list: seq<u64>)
      ensures r.Some? <==> forall k :: k in insts ==> InRange(k)
      ensures r.Some? ==> ScanOk(insts.Keys, r.value) && Lists(list, insts.Keys)
    {
      hide ScanOk, ScanKey;
      var s := NoKeys();
      var remaining := insts.Keys;
      list := [];
      ScanNothing();
      assert insts.Keys - remaining == {};
      while remaining != {}
        invariant remaining <= insts.Keys && Lists(list, insts.Keys - remaining)
        invariant forall k :: k in insts.Keys - remaining ==> InRange(k)
        invariant ScanOk(insts.Keys - remaining, s)
        decreases |remaining|
      {
        var addr :| addr in remaining;
        list := list + [addr];
        if addr < ROM_ENTRY || addr >= ROM_ADDR_MAX {
          return None, list;
        }
        ScanKeyOk(insts.Keys - remaining, s, addr);
        s := ScanKey(s, addr);
        assert insts.Keys - (remaining - {addr}) == (insts.Keys - remaining) + {addr};
        remaining := remaining - {addr};
      }
      assert insts.Keys - {} == insts.Keys;
      return Some(s), list;
    }

    /** Puts every instruction in its place. */
    method FillVectors()
      requires Fits(rom, insts.Keys) && AllSane(rom) && Genuine(insts)
      requires forall k :: k in insts ==> InRange(k)
      modifies this`rom
      ensures Fits(rom, insts.Keys) && AllSane(rom) && KeepsAll(rom, insts, insts.Keys)
    {
      hide AllSane, SameInst, Kept, Replaced, Sane;
      var remaining := insts.Keys;
      while remaining != {}
        modifies this`rom
        invariant remaining <= insts.Keys && Fits(rom, insts.Keys) && AllSane(rom)
        invariant KeepsAll(rom, insts, insts.Keys - remaining)
        decreases |remaining|
      {
        var addr :| addr in remaining;
        FillOne(rom, insts, insts.Keys - remaining, addr);
        KeptBounds(rom, addr);
        rom := Replaced(rom, PlaceOf(rom.offsetNa, addr), insts[addr]);
        assert insts.Keys - (remaining - {addr}) == (insts.Keys - remaining) + {addr};
        remaining := remaining - {addr};
      }
      assert insts.Keys - {} == insts.Keys;
    }

    /** Tells every instruction its position in the sorted list. */
    method LinkList() returns (r: Outcome)
      requires Fits(rom, insts.Keys) && AllSane(rom) && KeepsAll(rom, insts, insts.Keys)
      requires Increasing(sortedPcList) && (forall k :: k in sortedPcList <==> k in insts)
      requires forall k :: k in insts ==> InRange(k)
      modifies this`rom, this`insts
      ensures r.Panic? ==> !BiosAligned(old(insts).Keys)
      ensures r.Done? ==> Indexed(old(insts), rom, sortedPcList)
      ensures r.Done? ==> insts.Keys == old(insts).Keys && forall k :: k in insts ==> SameInst(insts[k], old(insts)[k])
    {
      hide AllSane, SameInst, Kept, Replaced, Sane, Vector, PlaceOf, FetchPlace, LinkedAt, KeptAs, BiosAligned;
      ghost var before := insts;
      AllSameInst(insts);
      for n := 0 to |sortedPcList|
        modifies this`rom, this`insts
        invariant Fits(rom, before.Keys) && AllSane(rom) && KeepsAll(rom, before, before.Keys)
        invariant insts.Keys == before.Keys && forall k :: k in insts ==> SameInst(insts[k], before[k])
        invariant BiosAligned(before.Keys) ==> Linked(rom, sortedPcList, n)
      {
        var pc := sortedPcList[n];
        assert pc in before;
        SameTransitiveLabel(insts[pc], n, before[pc]);
        insts := insts[pc := Labelled(insts[pc], n)];
        var place := FetchPlace(rom, pc);
        if !(0 <= place.index < |Vector(rom, place.vector)|) {
          LookupFails(rom, before.Keys, pc);
          return Panic;
        }
        var x := Vector(rom, place.vector)[place.index];
        LinkOne(rom, before, sortedPcList, n, place);
        rom := Replaced(rom, place, Labelled(x, n));
      }
      return Done;
    }

    /** Builds the indexes. It fails when an address is out of range, or when the BIOS or the program
        has no aligned address; unaligned BIOS addresses may also make it fail. */
    method BuildIndexes() returns (r: Outcome)
      requires Genuine(insts)
      modifies this
      ensures r.Done? ==> HasKeys(old(insts).Keys)
      ensures HasKeys(old(insts).Keys) && BiosAligned(old(insts).Keys) ==> r.Done?
      ensures r.Done? ==> Indexed(old(insts), rom, sortedPcList)
      ensures r.Done? ==> (Fetches(rom, old(insts)) <==> BiosAligned(old(insts).Keys))
      ensures r.Done? ==> ChunkReplay.WellBuilt(rom)
      ensures r.Done? ==> LargestKeys(old(insts).Keys, maxBiosPc, maxProgramPc)
    {
      hide AllSane, SameInst, Kept, Replaced, Fetches, BiosAligned, Genuine, KeepsAll, Fits;
      ghost var before := insts;
      var scan, list := ScanKeys();
      if scan.None? {
        return Panic;
      }
      var s := scan.value;
      maxBiosPc, maxProgramPc := s.maxEntry, s.maxProgram;
      if s.maxEntry < ROM_ENTRY || s.maxProgram < ROM_ADDR {
        return Panic;
      }
      EmptyFits(insts.Keys, s);
      rom := Empty(s);
      SortPcsKeeps(list);
      sortedPcList := SortPcs(list);
      FillVectors();
      r := LinkList();
      if r.Done? {
        FetchesExactly(rom, before);
        IndexWellBuilt(rom);
      }
    }
  }

  lemma ScanNothing()
    ensures ScanOk({}, NoKeys())
  {
  }

  lemma KeptBounds(rom: Rom, k: u64)
    requires Kept(rom, k).Some?
    ensures var place := PlaceOf(rom.offsetNa, k);
            0 <= place.index < |Vector(rom, place.vector)| && Kept(rom, k) == Some(Vector(rom, place.vector)[place.index])
  {
  }

  lemma FillOne(rom: Rom, insts: Insts, done: set<u64>, addr: u64)
    requires Fits(rom, insts.Keys) && AllSane(rom) && Genuine(insts) && addr in insts && InRange(addr)
    requires done <= insts.Keys && KeepsAll(rom, insts, done)
    ensures Kept(rom, addr).Some?
    ensures 0 <= PlaceOf(rom.offsetNa, addr).index < |Vector(rom, PlaceOf(rom.offsetNa, addr).vector)|
    ensures var rom' := Replaced(rom, PlaceOf(rom.offsetNa, addr), insts[addr]);
            Fits(rom', insts.Keys) && AllSane(rom') && KeepsAll(rom', insts, done + {addr})
  {
    hide AllSane, Kept, SameInst, Replaced;
    KeptBounds(rom, addr);
    var place := PlaceOf(rom.offsetNa, addr);
    var rom' := Replaced(rom, place, insts[addr]);
    ReplacedFits(rom, insts.Keys, place, insts[addr]);
    ReplacedSane(rom, place, insts[addr]);
    SameItself(insts[addr]);
    forall k | k in done + {addr}
      ensures KeptAs(rom', k, insts[k])
    {
      ReplacedKeeps(rom, addr, insts[addr], k);
    }
  }

  lemma SameItself(x: Inst)
    ensures SameInst(x, x)
  {
  }

  lemma AllSameInst(insts: Insts)
    ensures forall k :: k in insts ==> SameInst(insts[k], insts[k])
  {
  }

  lemma SameTransitiveLabel(x: Inst, n: nat, y: Inst)
    requires SameInst(x, y)
    ensures SameInst(Labelled(x, n), y)
  {
    LabelledSame(x, n);
    SameTransitive(Labelled(x, n), x, y);
  }

  /** With an aligned BIOS, no lookup for labelling is out of bounds. */
  lemma FetchInside(rom: Rom, keys: set<u64>, pc: u64)
    requires Fits(rom, keys) && pc in keys && InRange(pc) && BiosAligned(keys)
    ensures FetchPlace(rom, pc) == PlaceOf(rom.offsetNa, pc)
    ensures 0 <= FetchPlace(rom, pc).index < |Vector(rom, FetchPlace(rom, pc).vector)|
  {
    KeptBounds(rom, pc);
  }

  lemma LookupFails(rom: Rom, keys: set<u64>, pc: u64)
    requires Fits(rom, keys) && pc in keys && InRange(pc)
    requires !(0 <= FetchPlace(rom, pc).index < |Vector(rom, FetchPlace(rom, pc).vector)|)
    ensures !BiosAligned(keys)
  {
    hide Vector;
    if BiosAligned(keys) {
      FetchInside(rom, keys, pc);
    }
  }

  lemma LinkOne(rom: Rom, insts: Insts, list: seq<u64>, n: nat, place: Place)
    requires Fits(rom, insts.Keys) && AllSane(rom) && KeepsAll(rom, insts, insts.Keys)
    requires n < |list| && Increasing(list) && list[n] in insts && InRange(list[n])
    requires place == FetchPlace(rom, list[n]) && 0 <= place.index < |Vector(rom, place.vector)|
    requires BiosAligned(insts.Keys) ==> Linked(rom, list, n)
    ensures var rom' := Replaced(rom, place, Labelled(Vector(rom, place.vector)[place.index], n));
            && Fits(rom', insts.Keys) && AllSane(rom') && KeepsAll(rom', insts, insts.Keys)
            && (BiosAligned(insts.Keys) ==> Linked(rom', list, n + 1))
  {
    hide AllSane, KeepsAll, Linked, Fits, Sane, SameInst;
    var x := Vector(rom, place.vector)[place.index];
    SlotSane(rom, place);
    LabelledSame(x, n);
    hide Labelled;
    ReplacedFits(rom, insts.Keys, place, Labelled(x, n));
    ReplacedSane(rom, place, Labelled(x, n));
    LabelKeeps(rom, insts, insts.Keys, place, n);
    if BiosAligned(insts.Keys) {
      FetchInside(rom, insts.Keys, list[n]);
      KeptSome(rom, insts.Keys, list[n]);
      LabelLinks(rom, list, n);
    }
  }

  lemma KeptSome(rom: Rom, keys: set<u64>, k: u64)
    requires Fits(rom, keys) && k in keys
    ensures Kept(rom, k).Some?
  {
  }

  lemma SlotSane(rom: Rom, place: Place)
    requires AllSane(rom) && 0 <= place.index < |Vector(rom, place.vector)|
    ensures Sane(Vector(rom, place.vector)[place.index])
    ensures place.vector == 0 ==> Aligned(Vector(rom, place.vector)[place.index].paddr)
  {
    hide Sane;
  }
}
