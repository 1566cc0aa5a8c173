/** Reads and writes refine a byte map, and unaligned accesses can be rebuilt from aligned words. */
module MemoryLemmas {
  import opened Words
  import opened Wrappers
  import opened MemoryModel

  // ---- which section answers ----

  /** Sections do not overlap, so at most one read section can hold an access. */
  lemma FindUnique(m: Memory, addr: int, width: nat, i: nat)
    requires width > 0 && i < |m.readSections| && m.readSections[i].Contains(addr, width)
    ensures Find(m.readSections, addr, width) == Some(i)
  {
    var j := Find(m.readSections, addr, width).value;
    assert m.readSections[j].Contains(addr, width);
  }

  lemma SectionByte(m: Memory, i: nat, a: int)
    requires i < |m.readSections| && m.readSections[i].Contains(a, 1)
    ensures Byte(m, a) == Some(m.readSections[i].buffer[a - m.readSections[i].start])
  {
    FindUnique(m, a, 1, i);
    assert Apart(m.readSections[i], m.writeSection);
  }

  /** Looking in the read sections first or in the write section first makes no difference. */
  lemma OneHome(m: Memory, addr: int, width: nat)
    requires width > 0
    ensures !(m.writeSection.Contains(addr, width) && Find(m.readSections, addr, width).Some?)
  {
    if Find(m.readSections, addr, width).Some? {
      var i := Find(m.readSections, addr, width).value;
      assert Apart(m.readSections[i], m.writeSection);
    }
  }

  // ---- little-endian arithmetic ----

  /** b holds every byte of the section. */
  ghost predicate Holds(b: map<int, u8>, s: MemSection)
    requires s.Sized()
  {
    forall a :: s.Contains(a, 1) ==> a in b && b[a] == s.buffer[a - s.start]
  }

  lemma {:induction false} LeAtSection(b: map<int, u8>, s: MemSection, addr: int, width: nat)
    requires s.Sized() && s.Contains(addr, width) && Holds(b, s)
    ensures LeAt(b, addr, width) == s.Load(addr, width)
    decreases width
  {
    if width > 0 {
      LeAtSection(b, s, addr + 1, width - 1);
      var p := addr - s.start;
      var bytes := s.buffer[p..p + width];
      assert bytes[1..] == s.buffer[p + 1..p + 1 + (width - 1)];
      assert s.Contains(addr, 1);
    }
  }

  lemma BytesHold(m: Memory, addr: int, width: nat)
    requires width > 0
    ensures Holds(Bytes(m), m.writeSection)
    ensures Find(m.readSections, addr, width).Some? ==>
              Holds(Bytes(m), m.readSections[Find(m.readSections, addr, width).value])
  {
    if Find(m.readSections, addr, width).Some? {
      var i := Find(m.readSections, addr, width).value;
      forall a | m.readSections[i].Contains(a, 1)
        ensures a in Bytes(m) && Bytes(m)[a] == m.readSections[i].buffer[a - m.readSections[i].start]
      {
        SectionByte(m, i, a);
      }
    }
  }

  /** A read returns the little-endian value of the bytes, wherever they are, or fails exactly
      when no section holds them all. */
  lemma ReadRefinesBytes(m: Memory, addr: u64, width: nat)
    ensures Read(m, addr, width).Some? <==> ValidWidth(width) && Accessible(m, addr, width)
    ensures Read(m, addr, width).Some? && !FreeInputRead(m, addr, width) ==>
              Read(m, addr, width) == Some(LeAt(Bytes(m), addr, width))
    ensures Read(m, addr, width).Some? && FreeInputRead(m, addr, width) ==>
              Read(m, addr, width) == Some(m.freeInput)
  {
    if ValidWidth(width) && Accessible(m, addr, width) {
      BytesHold(m, addr, width);
      if m.writeSection.Contains(addr, width) {
        LeAtSection(Bytes(m), m.writeSection, addr, width);
      } else {
        LeAtSection(Bytes(m), m.readSections[Find(m.readSections, addr, width).value], addr, width);
      }
    }
  }

  /** The one read that does not return stored bytes: the free-input word. */
  predicate FreeInputRead(m: Memory, addr: u64, width: nat) {
    addr == INPUT_ADDR && width == 8 && !m.writeSection.Contains(addr, width)
  }

  lemma {:induction false} LeMapBytes(addr: int, v: nat, width: nat, k: nat)
    requires k < width
    ensures LeMap(addr, v, width)[addr + k] == LeBytes(v, width)[k]
    decreases k
  {
    if k > 0 {
      LeMapBytes(addr + 1, v / 256, width - 1, k - 1);
      assert addr + k == (addr + 1) + (k - 1);
    }
  }

  lemma SpliceByte(s: MemSection, addr: int, bytes: seq<u8>, a: int)
    requires s.Sized() && s.Contains(addr, |bytes|) && s.Contains(a, 1)
    ensures s.Splice(addr, bytes).buffer[a - s.start] ==
            if addr <= a < addr + |bytes| then bytes[a - addr] else s.buffer[a - s.start]
  {
  }

  /** Splicing into the read section that holds the access. */
  lemma WriteByteRead(m: Memory, addr: u64, val: u64, width: nat, a: int)
    requires Write(m, addr, val, width).Some? && Find(m.readSections, addr, width).Some?
    ensures Byte(Write(m, addr, val, width).value, a) ==
            if addr <= a < addr + width then Some(LeBytes(val, width)[a - addr]) else Byte(m, a)
  {
    var m' := Write(m, addr, val, width).value;
    var home := Find(m.readSections, addr, width).value;
    assert Apart(m.readSections[home], m.writeSection);
    if m.readSections[home].Contains(a, 1) {
      FindUnique(m, a, 1, home);
    }
    if m.writeSection.Contains(a, 1) {
    } else if Find(m.readSections, a, 1).Some? {
      var i := Find(m.readSections, a, 1).value;
      assert m'.readSections[i].Contains(a, 1);
      FindUnique(m', a, 1, i);
      if i == home {
        SpliceByte(m.readSections[i], addr, LeBytes(val, width), a);
      }
    } else {
      assert !m.readSections[home].Contains(a, 1);
      LayoutFind(m, m', a, 1);
    }
  }

  /** Splicing into the write section. */
  lemma WriteByteWrite(m: Memory, addr: u64, val: u64, width: nat, a: int)
    requires Write(m, addr, val, width).Some? && Find(m.readSections, addr, width).None?
    ensures Byte(Write(m, addr, val, width).value, a) ==
            if addr <= a < addr + width then Some(LeBytes(val, width)[a - addr]) else Byte(m, a)
  {
    if m.writeSection.Contains(a, 1) {
      SpliceByte(m.writeSection, addr, LeBytes(val, width), a);
    }
  }

  /** Byte by byte, splicing into the only section that holds the access updates the byte map. */
  lemma WriteByte(m: Memory, addr: u64, val: u64, width: nat, a: int)
    requires Write(m, addr, val, width).Some?
    ensures Byte(Write(m, addr, val, width).value, a) ==
            if addr <= a < addr + width then Some(LeBytes(val, width)[a - addr]) else Byte(m, a)
  {
    if Find(m.readSections, addr, width).Some? {
      WriteByteRead(m, addr, val, width, a);
    } else {
      WriteByteWrite(m, addr, val, width, a);
    }
  }

  /** A write replaces exactly the addressed bytes, little-endian, and fails exactly when no
      section holds them all. What can be accessed never changes. */
  lemma WriteRefinesBytes(m: Memory, addr: u64, val: u64, width: nat)
    ensures Write(m, addr, val, width).Some? <==> ValidWidth(width) && Accessible(m, addr, width)
    ensures Write(m, addr, val, width).Some? ==>
              Bytes(Write(m, addr, val, width).value) == Bytes(m) + LeMap(addr, val, width)
  {
    if Write(m, addr, val, width).Some? {
      var m' := Write(m, addr, val, width).value;
      var b, b', u := Bytes(m), Bytes(m'), LeMap(addr, val, width);
      forall a
        ensures a in b' <==> a in b || a in u
        ensures a in b' ==> b'[a] == if a in u then u[a] else b[a]
      {
        WriteByte(m, addr, val, width, a);
        if addr <= a < addr + width {
          LeMapBytes(addr, val, width, a - addr);
        }
      }
      assert b' == b + u;
    }
  }

  lemma LayoutAccessible(m: Memory, m': Memory, addr: int, width: nat)
    requires SameLayout(m, m')
    ensures Accessible(m, addr, width) == Accessible(m', addr, width)
  {
    LayoutFind(m, m', addr, width);
  }

  lemma LayoutFind(m: Memory, m': Memory, addr: int, width: nat)
    requires SameLayout(m, m')
    ensures Find(m.readSections, addr, width).Some? == Find(m'.readSections, addr, width).Some?
  {
    if i :| 0 <= i < |m.readSections| && m.readSections[i].Contains(addr, width) {
      assert m'.readSections[i].Contains(addr, width);
    }
    if j :| 0 <= j < |m'.readSections| && m'.readSections[j].Contains(addr, width) {
      assert m.readSections[j].Contains(addr, width);
    }
  }

  // ---- read over write, on byte maps ----

  lemma {:induction false} LeAtFramed(b: map<int, u8>, b': map<int, u8>, addr: int, width: nat)
    requires forall a :: addr <= a < addr + width ==> (a in b <==> a in b') && (a in b ==> b[a] == b'[a])
    ensures LeAt(b, addr, width) == LeAt(b', addr, width)
    decreases width
  {
    if width > 0 {
      LeAtFramed(b, b', addr + 1, width - 1);
    }
  }

  /** A store is read back, truncated to its width. */
  lemma {:induction false} LeAtOwnWrite(b: map<int, u8>, addr: int, v: nat, width: nat)
    ensures LeAt(b + LeMap(addr, v, width), addr, width) == LowBytes(v, width)
    decreases width
  {
    if width > 0 {
      LeAtOwnWrite(b, addr + 1, v / 256, width - 1);
      LeAtFramed(b + LeMap(addr + 1, v / 256, width - 1), b + LeMap(addr, v, width), addr + 1, width - 1);
    }
  }

  lemma {:induction false} LeAtBound(b: map<int, u8>, addr: int, width: nat)
    ensures LeAt(b, addr, width) < Pow256(width)
    decreases width
  {
    if width > 0 {
      LeAtBound(b, addr + 1, width - 1);
    }
  }

  lemma ModSplit(v: nat, p: nat)
    requires p > 0
    ensures v % (256 * p) == v % 256 + 256 * (v / 256 % p)
  {
    var q, r := v / 256, v % 256;
    var d, e := q / p, q % p;
    assert q == p * d + e;
    assert (256 * p) * d == 256 * (p * d);
    ModUnique(v, 256 * p, d, 256 * e + r);
  }

  lemma {:induction false} LowBytesMod(x: nat, n: nat)
    ensures LowBytes(x, n) == x % Pow256(n)
  {
    if n > 0 {
      LowBytesMod(x / 256, n - 1);
      ModSplit(x, Pow256(n - 1));
    }
  }

  // ---- the order of bytes: byte k counts 256^k ----

  lemma {:induction false} LeBytesDigit(v: nat, n: nat, k: nat)
    requires k < n
    ensures LeBytes(v, n)[k] == v / Pow256(k) % 256
    decreases k
  {
    if k > 0 {
      LeBytesDigit(v / 256, n - 1, k - 1);
      DropDigit(v, k);
    }
  }

  lemma DropDigit(v: nat, k: nat)
    requires k > 0
    ensures v / Pow256(k) == v / 256 / Pow256(k - 1)
  {
    var p := Pow256(k - 1);
    assert Pow256(k) == 256 * p;
    hide Pow256;
    var q, r := v / 256 / p, v / 256 % p;
    assert v / 256 == p * q + r;
    assert v == (256 * p) * q + (256 * r + v % 256);
    ModUnique(v, 256 * p, q, 256 * r + v % 256);
  }

  lemma {:induction false} LeValueDigit(bytes: seq<u8>, k: nat)
    requires k < |bytes|
    ensures LeValue(bytes) / Pow256(k) % 256 == bytes[k]
    decreases k
  {
    var low, rest := bytes[0], LeValue(bytes[1..]);
    assert LeValue(bytes) == low + 256 * rest;
    assert Pow256(0) == 1;
    hide LeValue, Pow256;
    if k > 0 {
      LeValueDigit(bytes[1..], k - 1);
      DropDigit(low + 256 * rest, k);
    }
  }

  /** Byte k of a little-endian number in memory. */
  lemma {:induction false} LeAtDigit(b: map<int, u8>, addr: int, width: nat, k: nat)
    requires k < width && addr + k in b
    ensures LeAt(b, addr, width) / Pow256(k) % 256 == b[addr + k]
    decreases k
  {
    var low, rest := if addr in b then b[addr] else 0, LeAt(b, addr + 1, width - 1);
    assert LeAt(b, addr, width) == low + 256 * rest;
    hide LeAt;
    if k > 0 {
      LeAtDigit(b, addr + 1, width - 1, k - 1);
      DropDigit(low + 256 * rest, k);
    }
  }

  /** Byte k of what a store leaves. */
  lemma LeMapDigit(addr: int, v: nat, width: nat, k: nat)
    requires k < width
    ensures LeMap(addr, v, width)[addr + k] == v / Pow256(k) % 256
  {
    LeMapBytes(addr, v, width, k);
    LeBytesDigit(v, width, k);
  }

  // ---- unaligned accesses ----

  lemma {:induction false} LeConcat(x: seq<u8>, y: seq<u8>)
    ensures LeValue(x + y) == LeValue(x) + ShlBytes(LeValue(y), |x|)
    decreases |x|
  {
    if x == [] {
      assert x + y == y;
    } else {
      assert (x + y)[1..] == x[1..] + y;
      LeConcat(x[1..], y);
    }
  }

  lemma ShlBytes8(v: nat)
    ensures ShlBytes(v, 8) == v * 0x1_0000_0000_0000_0000
  {
    assert ShlBytes(v, 2) == 256 * ShlBytes(v, 1);
    assert ShlBytes(v, 3) == 256 * ShlBytes(v, 2);
    assert ShlBytes(v, 4) == 256 * ShlBytes(v, 3);
    assert ShlBytes(v, 5) == 256 * ShlBytes(v, 4);
    assert ShlBytes(v, 6) == 256 * ShlBytes(v, 5);
    assert ShlBytes(v, 7) == 256 * ShlBytes(v, 6);
  }

  lemma {:induction false} LeDrop(bytes: seq<u8>, off: nat)
    requires off <= |bytes|
    ensures ShrBytes(LeValue(bytes), off) == LeValue(bytes[off..])
    decreases off
  {
    if off > 0 {
      LeDrop(bytes[1..], off - 1);
      assert bytes[1..][off - 1..] == bytes[off..];
    } else {
      assert bytes[0..] == bytes;
    }
  }

  lemma {:induction false} LeTake(bytes: seq<u8>, width: nat)
    requires width <= |bytes|
    ensures LowBytes(LeValue(bytes), width) == LeValue(bytes[..width])
    decreases width
  {
    if width > 0 {
      LeTake(bytes[1..], width - 1);
      assert bytes[..width][1..] == bytes[1..][..width - 1];
    }
  }

  /** Shifting and masking a little-endian value selects a subsequence of its bytes. */
  lemma LeSlice(bytes: seq<u8>, off: nat, width: nat)
    requires off + width <= |bytes|
    ensures LowBytes(ShrBytes(LeValue(bytes), off), width) == LeValue(bytes[off..off + width])
  {
    LeDrop(bytes, off);
    LeTake(bytes[off..], width);
    assert bytes[off..][..width] == bytes[off..off + width];
  }

  lemma Rem8(x: int, q: int, r: int)
    requires x == 8 * q + r && 0 <= r < 8
    ensures x % 8 == r
  {
  }

  lemma AlignedFacts(addr: int, width: nat)
    requires ValidWidth(width)
    ensures RequiredAddresses(addr, width) ==
            (Align(addr), if addr % 8 + width <= 8 then Align(addr) else Align(addr) + 8)
    ensures addr % 8 == 0 ==> addr % 4 == 0
  {
    var q, off := addr / 8, addr % 8;
    if off + width <= 8 {
      Rem8(addr + width - 1, q, off + width - 1);
    } else {
      Rem8(addr + width - 1, q + 1, off + width - 9);
    }
    assert off == 0 ==> addr == 4 * (2 * q);
  }

  /** In a section with 8-aligned ends, the aligned words of an access are inside, and there are
      two of them exactly when the access crosses a multiple of 8. */
  lemma AlignedInside(s: MemSection, addr: int, width: nat)
    requires s.Ok() && s.Contains(addr, width) && ValidWidth(width)
    ensures if addr % 8 + width <= 8 then
              s.Contains(Align(addr), 8) && RequiredAddresses(addr, width) == (Align(addr), Align(addr))
            else
              s.Contains(Align(addr), 16) && RequiredAddresses(addr, width) == (Align(addr), Align(addr) + 8)
  {
    AlignedFacts(addr, width);
    AlignedUp(s.end, addr + width - 1);
    AlignedUp(addr, s.start);
  }

  /** Rounding down to a multiple of 8 stays above smaller multiples of 8. */
  lemma AlignedUp(x: int, y: int)
    ensures x % 8 == 0 && y < x ==> Align(y) + 8 <= x
    ensures y % 8 == 0 && y <= x ==> y <= Align(x)
  {
  }

  lemma SubSlice(bytes: seq<u8>, p: nat, n: nat, off: nat, width: nat)
    requires p + n <= |bytes| && off + width <= n
    ensures bytes[p..p + n][off..off + width] == bytes[p + off..p + off + width]
  {
    var l, r := bytes[p..p + n][off..off + width], bytes[p + off..p + off + width];
    forall k | 0 <= k < width
      ensures l[k] == r[k]
    {
      assert bytes[p..p + n][off + k] == bytes[p + (off + k)];
    }
    assert l == r;
  }

  /** Extracting from any run of bytes that holds the access gives its value. */
  lemma ExtractLoad(s: MemSection, base: int, n: nat, off: nat, width: nat)
    requires s.Sized() && s.Contains(base, n) && off + width <= n && ValidWidth(width)
    ensures Extract(s.Load(base, n), off, width) == s.Load(base + off, width)
  {
    var p := base - s.start;
    var window := s.buffer[p..p + n];
    LeSlice(window, off, width);
    SubSlice(s.buffer, p, n, off, width);
  }

  /** Two consecutive aligned words, as the 128-bit number the source shifts. */
  lemma TwoWords(s: MemSection, base: int)
    requires s.Sized() && s.Contains(base, 16)
    ensures s.Load(base, 8) + s.Load(base + 8, 8) * 0x1_0000_0000_0000_0000 == s.Load(base, 16)
  {
    var p := base - s.start;
    var w1, w2 := s.buffer[p..p + 8], s.buffer[p + 8..p + 16];
    assert w1 + w2 == s.buffer[p..p + 16];
    LeConcat(w1, w2);
    ShlBytes8(LeValue(w2));
  }

  /** Within one section: the aligned words exist, and they determine the value. */
  lemma SectionReassembly(s: MemSection, addr: u64, width: nat)
    requires s.Ok() && s.Contains(addr, width) && ValidWidth(width) && !FullAligned(addr, width)
    ensures RequiredWords(s, addr, width).Some?
    ensures Determines(addr, width, RequiredWords(s, addr, width).value, s.Load(addr, width))
  {
    var base, off := Align(addr), addr % 8;
    AlignedInside(s, addr, width);
    AlignedFacts(addr, width);
    hide Extract;
    if off + width <= 8 {
      ExtractLoad(s, base, 8, off, width);
    } else {
      TwoWords(s, base);
      ExtractLoad(s, base, 16, off, width);
    }
  }

  /** The logged words are as many as the access straddles, and give back the value. */
  predicate Determines(addr: u64, width: nat, words: seq<u64>, value: int) {
    if RequiredAddresses(addr, width).0 == RequiredAddresses(addr, width).1 then
      |words| == 1 && SingleNotAligned(addr, width, words[0]) == Some(value)
    else
      |words| == 2 && DoubleNotAligned(addr, width, words[0], words[1]) == Some(value)
  }

  /** Asking for the aligned words as well never changes the outcome of a read, except for the
      free-input word, which ReadRequired does not know. */
  lemma ReadRequiredAgrees(m: Memory, addr: u64, width: nat)
    ensures ReadRequired(m, addr, width).Some? <==> Read(m, addr, width).Some?
    ensures ReadRequired(m, addr, width).Some? && !FreeInputRead(m, addr, width) ==>
              ReadRequired(m, addr, width).value.0 == Read(m, addr, width).value
    ensures ReadRequired(m, addr, width).Some? && FreeInputRead(m, addr, width) ==>
              ReadRequired(m, addr, width).value.0 == LeAt(Bytes(m), addr, width)
  {
    if ValidWidth(width) && Accessible(m, addr, width) {
      var s := if m.writeSection.Contains(addr, width) then m.writeSection
               else m.readSections[Find(m.readSections, addr, width).value];
      if !FullAligned(addr, width) {
        SectionReassembly(s, addr, width);
      }
      if FreeInputRead(m, addr, width) {
        BytesHold(m, addr, width);
        LeAtSection(Bytes(m), s, addr, width);
      }
    }
  }

  /** Whatever the emulator logs for an unaligned access is enough to rebuild the value read, and
      8 bytes always take the two-word path. */
  lemma Reassembly(m: Memory, addr: u64, width: nat)
    requires Read(m, addr, width).Some? && !FullAligned(addr, width)
    ensures ReadRequired(m, addr, width).Some?
    ensures ReadRequired(m, addr, width).value.0 == Read(m, addr, width).value
    ensures Determines(addr, width, ReadRequired(m, addr, width).value.1, Read(m, addr, width).value)
    ensures width == 8 ==> RequiredAddresses(addr, width).0 != RequiredAddresses(addr, width).1
  {
    assert INPUT_ADDR % 4 == 0;
    var s := if m.writeSection.Contains(addr, width) then m.writeSection
             else m.readSections[Find(m.readSections, addr, width).value];
    SectionReassembly(s, addr, width);
    AlignedFacts(addr, width);
  }

  // ---- the logged words ----

  /** The aligned word at an address. */
  ghost function OldWord(m: Memory, a: int): nat {
    LeAt(Bytes(m), a, 8)
  }

  lemma WordLoaded(m: Memory, s: MemSection, a: int)
    requires s == m.writeSection || s in m.readSections
    requires s.Contains(a, 8)
    ensures AlignedWord(s, a).Some? && AlignedWord(s, a).value == OldWord(m, a)
  {
    SectionHolds(m, s);
    LeAtSection(Bytes(m), s, a, 8);
    hide Bytes, LeAt;
  }

  lemma SectionHolds(m: Memory, s: MemSection)
    requires s == m.writeSection || s in m.readSections
    ensures Holds(Bytes(m), s)
  {
    if s == m.writeSection {
      BytesHold(m, s.start, 1);
    } else {
      var i :| 0 <= i < |m.readSections| && m.readSections[i] == s;
      forall a | s.Contains(a, 1)
        ensures a in Bytes(m) && Bytes(m)[a] == s.buffer[a - s.start]
      {
        SectionByte(m, i, a);
      }
    }
  }

  lemma WordsLoaded(m: Memory, s: MemSection, addr: u64, width: nat)
    requires s == m.writeSection || s in m.readSections
    requires s.Contains(addr, width) && ValidWidth(width) && !FullAligned(addr, width)
    ensures RequiredWords(s, addr, width) ==
            if addr % 8 + width <= 8 then Some([OldWord(m, addr - addr % 8)])
            else Some([OldWord(m, addr - addr % 8), OldWord(m, addr - addr % 8 + 8)])
  {
    AlignedInside(s, addr, width);
    hide OldWord, AlignedWord, RequiredAddresses;
    WordLoaded(m, s, addr - addr % 8);
    if addr % 8 + width > 8 {
      WordLoaded(m, s, addr - addr % 8 + 8);
    }
  }

  /** What is logged for an unaligned access: the aligned words it touches, as they are in memory, the
      lower address first. */
  lemma LoggedWords(m: Memory, addr: u64, width: nat)
    requires ReadRequired(m, addr, width).Some?
    ensures var a := addr - addr % 8;
            ReadRequired(m, addr, width).value.1 ==
            if addr % 4 == 0 && width == 8 then []
            else if addr % 8 + width <= 8 then [OldWord(m, a)] else [OldWord(m, a), OldWord(m, a + 8)]
  {
    hide OldWord, RequiredWords;
    var s := if m.writeSection.Contains(addr, width) then m.writeSection
             else m.readSections[Find(m.readSections, addr, width).value];
    if FullAligned(addr, width) {
      NoWordsLoaded(s, addr, width);
    } else {
      WordsLoaded(m, s, addr, width);
    }
  }

  lemma NoWordsLoaded(s: MemSection, addr: u64, width: nat)
    requires s.Sized() && FullAligned(addr, width)
    ensures RequiredWords(s, addr, width) == Some([])
  {
  }
}
