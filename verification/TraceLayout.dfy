/** Trace memory: chunks laid out one after the other by the writer and walked by the reader. */
module TraceLayout {
  import opened Words
  import opened Wrappers
  import opened MemoryModel

  const START_WORDS := 37
  const HEADER_WORDS := 41
  const MAX_CHUNKS := 1_000_000
  const MAX_MEM_READS := 10_000_000

  type Words33 = s: seq<u64> | |s| == 33
    witness seq(33, _ => 0)

  datatype ChunkStart = ChunkStart(pc: u64, sp: u64, c: u64, step: u64, regs: Words33)

  datatype Chunk = Chunk(start: ChunkStart, lastC: u64, end: u64, steps: u64, memReads: seq<u64>) {
    predicate Fits() { |memReads| <= MAX_MEM_READS }
  }

  // ---- the layout ----

  function StartOf(s: ChunkStart): (r: seq<u64>)
    ensures |r| == START_WORDS
  {
    [s.pc, s.sp, s.c, s.step] + s.regs
  }

  function ChunkWords(c: Chunk): (r: seq<u64>)
    requires c.Fits()
    ensures |r| == HEADER_WORDS + |c.memReads|
  {
    StartOf(c.start) + [c.lastC, c.end, c.steps, |c.memReads|] + c.memReads
  }

  /** The place of every field in the words of a chunk. */
  lemma ChunkFields(c: Chunk, i: nat)
    requires c.Fits()
    ensures var w := ChunkWords(c);
            && w[0] == c.start.pc && w[1] == c.start.sp && w[2] == c.start.c && w[3] == c.start.step
            && (i < 33 ==> w[4 + i] == c.start.regs[i])
            && w[37] == c.lastC && w[38] == c.end && w[39] == c.steps && w[40] == |c.memReads|
            && (i < |c.memReads| ==> w[41 + i] == c.memReads[i])
  {
  }

  ghost predicate AllFit(chunks: seq<Chunk>) {
    forall k :: 0 <= k < |chunks| ==> chunks[k].Fits()
  }

  function Laid(chunks: seq<Chunk>): seq<u64>
    requires AllFit(chunks)
  {
    if chunks == [] then [] else Laid(chunks[..|chunks| - 1]) + ChunkWords(chunks[|chunks| - 1])
  }

  // ---- the writer ----

  /** Writes words of the trace memory; addresses count 8-byte words from the trace address. */
  class TraceWriter {
    const mem: array<u64>
    var chunkAddress: nat
    var chunkStartStep: nat
    var step: nat
    var memReadsAddress: nat
    var memReadsSize: nat

    constructor (size: nat)
      requires size > 0
      ensures fresh(mem) && mem.Length == size && Closed([]) && step == 0
    {
      mem := new u64[size](_ => 0);
      chunkAddress, chunkStartStep, step, memReadsAddress, memReadsSize := 1, 0, 0, 0, 0;
      new;
      assert mem[1..1] == [];
    }

    /** All chunks so far are complete. */
    ghost predicate Closed(chunks: seq<Chunk>)
      reads this, mem
    {
      && AllFit(chunks) && 1 <= chunkAddress <= mem.Length
      && mem[0] == |chunks| && mem[1..chunkAddress] == Laid(chunks)
    }

    /** One more chunk has been started and has these memory reads. */
    ghost predicate Open(chunks: seq<Chunk>, start: ChunkStart, reads_: seq<u64>)
      reads this, mem
    {
      && AllFit(chunks) && 1 <= chunkAddress && chunkAddress + HEADER_WORDS + |reads_| <= mem.Length
      && mem[0] == |chunks| + 1 && mem[1..chunkAddress] == Laid(chunks)
      && mem[chunkAddress..chunkAddress + START_WORDS] == StartOf(start)
      && memReadsAddress == chunkAddress + HEADER_WORDS && memReadsSize == |reads_|
      && mem[memReadsAddress..memReadsAddress + memReadsSize] == reads_
      && chunkStartStep == start.step
    }

    /** chunk_start: counts the chunk, writes its start state and leaves room for the rest. */
    method StartChunk(pc: u64, sp: u64, c: u64, regs: Words33, ghost chunks: seq<Chunk>)
      requires Closed(chunks) && chunkAddress + HEADER_WORDS <= mem.Length
      requires |chunks| + 1 < 0x1_0000_0000_0000_0000 && step < 0x1_0000_0000_0000_0000
      modifies this`chunkStartStep, this`memReadsAddress, this`memReadsSize, mem
      ensures Open(chunks, ChunkStart(pc, sp, c, step, regs), [])
    {
      hide Laid, ChunkWords;
      ghost var laid := mem[1..chunkAddress];
      mem[0] := mem[0] + 1;
      var address := chunkAddress;
      mem[address] := pc;
      address := address + 1;
      mem[address] := sp;
      address := address + 1;
      mem[address] := c;
      address := address + 1;
      mem[address] := step;
      chunkStartStep := step;
      for i := 1 to 34
        modifies mem
        invariant mem[0] == |chunks| + 1 && mem[1..chunkAddress] == laid
        invariant mem[chunkAddress..chunkAddress + 4] == [pc, sp, c, step]
        invariant mem[address + 1..address + i] == regs[..i - 1]
      {
        mem[address + i] := regs[i - 1];
        assert mem[address + 1..address + i + 1] == mem[address + 1..address + i] + [regs[i - 1]];
      }
      assert regs[..33] == regs;
      assert mem[chunkAddress..chunkAddress + START_WORDS] ==
        mem[chunkAddress..chunkAddress + 4] + mem[chunkAddress + 4..chunkAddress + START_WORDS];
      memReadsAddress := chunkAddress + 40 + 1;
      memReadsSize := 0;
    }

    /** Appends a memory read to the open chunk. */
    method PushMemRead(v: u64, ghost chunks: seq<Chunk>, ghost start: ChunkStart, ghost reads_: seq<u64>)
      requires Open(chunks, start, reads_) && memReadsAddress + memReadsSize < mem.Length
      modifies this`memReadsSize, mem
      ensures Open(chunks, start, reads_ + [v])
    {
      ghost var laid, head := mem[1..chunkAddress], mem[chunkAddress..chunkAddress + START_WORDS];
      mem[memReadsAddress + memReadsSize] := v;
      memReadsSize := memReadsSize + 1;
      assert mem[1..chunkAddress] == laid && mem[chunkAddress..chunkAddress + START_WORDS] == head;
      assert mem[memReadsAddress..memReadsAddress + memReadsSize] ==
        mem[memReadsAddress..memReadsAddress + memReadsSize - 1] + [v];
    }

    /** The last c, the end flag, and the two sizes. */
    method WriteEnd(address: nat, c: u64, end: u64, steps: u64, size: u64)
      requires address + 4 <= mem.Length
      modifies mem
      ensures mem[address..address + 4] == [c, end, steps, size]
      ensures mem[..address] == old(mem[..address]) && mem[address + 4..] == old(mem[address + 4..])
    {
      mem[address] := c;
      mem[address + 1] := end;
      mem[address + 2] := steps;
      mem[address + 3] := size;
    }

    /** chunk_end: writes the last state and the sizes, and moves on to the next chunk. */
    method EndChunk(c: u64, end: u64, chunkSize: nat, stepCountDown: nat,
                    ghost chunks: seq<Chunk>, ghost start: ChunkStart, ghost reads_: seq<u64>)
      requires Open(chunks, start, reads_) && |reads_| <= MAX_MEM_READS
      requires stepCountDown <= chunkSize && start.step <= step && step + chunkSize < 0x1_0000_0000_0000_0000
      modifies this`step, this`chunkAddress, mem
      ensures step == old(step) + chunkSize - stepCountDown
      ensures AllFit(chunks + [Chunk(start, c, end, step - start.step, reads_)])
      ensures Closed(chunks + [Chunk(start, c, end, step - start.step, reads_)])
    {
      hide Laid, ChunkWords, StartOf;
      step := step + chunkSize - stepCountDown;
      ghost var before := mem[..];
      var address := chunkAddress + 37;
      WriteEnd(address, c, end, step - chunkStartStep, memReadsSize);
      address := address + 3;
      var value := memReadsSize;
      address := address + 1;
      address := address + value;
      ghost var chunk := Chunk(start, c, end, step - start.step, reads_);
      Rewritten(before, mem[..], chunkAddress, address, chunk.lastC, chunk.end, chunk.steps, memReadsSize);
      LaidMore(mem[..], chunkAddress, address, chunks, chunk);
      chunkAddress := address;
    }
  }

  /** Writing the four words leaves the start state, the memory reads and earlier chunks alone. */
  lemma Rewritten(m: seq<u64>, m': seq<u64>, base: nat, address: nat, c: u64, end: u64, steps: u64, size: u64)
    requires 1 <= base && base + HEADER_WORDS <= address <= |m| == |m'|
    requires m'[base + 37..base + 41] == [c, end, steps, size]
    requires m'[..base + 37] == m[..base + 37] && m'[base + 41..] == m[base + 41..]
    ensures m'[1..base] == m[1..base] && m'[base..base + START_WORDS] == m[base..base + START_WORDS] && m'[0] == m[0]
    ensures m'[base + HEADER_WORDS..address] == m[base + HEADER_WORDS..address]
    ensures m'[base + START_WORDS..base + HEADER_WORDS] == [c, end, steps, size]
  {
    assert m'[1..base] == m'[..base + 37][1..base] && m[1..base] == m[..base + 37][1..base];
    assert m'[base..base + 37] == m'[..base + 37][base..] && m[base..base + 37] == m[..base + 37][base..];
    assert m'[base + 41..address] == m'[base + 41..][..address - (base + 41)];
    assert m[base + 41..address] == m[base + 41..][..address - (base + 41)];
    assert m'[0] == m'[..base + 37][0] && m[0] == m[..base + 37][0];
  }

  lemma SliceOfSlice(m: seq<u64>, i: nat, j: nat, k: nat)
    requires i <= j <= k <= |m|
    ensures m[i..k] == m[i..j] + m[j..k]
  {
  }

  /** The memory up to address holds one chunk more. */
  lemma LaidMore(m: seq<u64>, base: nat, address: nat, chunks: seq<Chunk>, c: Chunk)
    requires AllFit(chunks) && c.Fits() && 1 <= base && address == base + HEADER_WORDS + |c.memReads| <= |m|
    requires m[1..base] == Laid(chunks) && m[base..base + START_WORDS] == StartOf(c.start)
    requires m[base + START_WORDS..base + HEADER_WORDS] == [c.lastC, c.end, c.steps, |c.memReads|]
    requires m[base + HEADER_WORDS..address] == c.memReads
    ensures AllFit(chunks + [c]) && m[1..address] == Laid(chunks + [c])
  {
    assert (chunks + [c])[..|chunks|] == chunks;
    SliceOfSlice(m, base, base + START_WORDS, base + HEADER_WORDS);
    SliceOfSlice(m, base, base + HEADER_WORDS, address);
    SliceOfSlice(m, 1, base, address);
  }

  // ---- the reader ----

  /** One chunk at a position, and the position after it. */
  function ChunkAt(trace: seq<u64>, at: nat): Option<(Chunk, nat)> {
    if at + HEADER_WORDS > |trace| then None
    else
      var size := trace[at + 40];
      if size > MAX_MEM_READS || at + HEADER_WORDS + size > |trace| then None
      else
        var start := ChunkStart(trace[at], trace[at + 1], trace[at + 2], trace[at + 3], trace[at + 4..at + 37]);
        Some((Chunk(start, trace[at + 37], trace[at + 38], trace[at + 39], trace[at + HEADER_WORDS..at + HEADER_WORDS + size]),
              at + HEADER_WORDS + size))
  }

  function ChunksFrom(trace: seq<u64>, at: nat, n: nat): Option<(seq<Chunk>, nat)> {
    if n == 0 then Some(([], at))
    else
      var (before, p) :- ChunksFrom(trace, at, n - 1);
      var (c, q) :- ChunkAt(trace, p);
      Some((before + [c], q))
  }

  /** Walks the chunks as the log function does. None: a count is too high, or the trace too short. */
  method ReadMinimalTrace(trace: seq<u64>) returns (r: Option<seq<Chunk>>)
    requires trace != []
    ensures r == if trace[0] > MAX_CHUNKS || ChunksFrom(trace, 1, trace[0]).None? then None
                 else Some(ChunksFrom(trace, 1, trace[0]).value.0)
  {
    hide ChunkAt;
    var numberOfChunks := trace[0];
    if numberOfChunks > MAX_CHUNKS {
      return None;
    }
    var chunks := [];
    var chunk := 1;
    for c := 0 to numberOfChunks
      invariant 0 <= chunk && ChunksFrom(trace, 1, c) == Some((chunks, chunk))
    {
      var next := ChunkAt(trace, chunk);
      if next.None? {
        ChunksStop(trace, 1, c + 1, numberOfChunks);
        return None;
      }
      chunks := chunks + [next.value.0];
      chunk := next.value.1;
    }
    return Some(chunks);
  }

  lemma {:induction false} ChunksStop(trace: seq<u64>, at: nat, k: nat, n: nat)
    requires k <= n && ChunksFrom(trace, at, k).None?
    ensures ChunksFrom(trace, at, n).None?
    decreases n
  {
    hide ChunkAt;
    if k < n {
      ChunksStop(trace, at, k, n - 1);
    }
  }

  lemma ChunkBack(trace: seq<u64>, at: nat, c: Chunk)
    requires c.Fits() && at + |ChunkWords(c)| <= |trace| && trace[at..at + |ChunkWords(c)|] == ChunkWords(c)
    ensures ChunkAt(trace, at) == Some((c, at + |ChunkWords(c)|))
  {
    var n := |ChunkWords(c)|;
    var words := trace[at..at + n];
    assert words[..37] == StartOf(c.start);
    assert forall j :: 0 <= j < n ==> trace[at + j] == words[j];
    assert words[37] == c.lastC && words[38] == c.end && words[39] == c.steps && words[40] == |c.memReads|;
    assert trace[at + 4..at + 37] == words[4..37] == c.start.regs;
    assert trace[at + 41..at + n] == words[41..n] == c.memReads;
  }

  lemma {:induction false} LaidBack(trace: seq<u64>, chunks: seq<Chunk>, at: nat)
    requires AllFit(chunks) && at + |Laid(chunks)| <= |trace| && trace[at..at + |Laid(chunks)|] == Laid(chunks)
    ensures ChunksFrom(trace, at, |chunks|) == Some((chunks, at + |Laid(chunks)|))
    decreases |chunks|
  {
    hide ChunkAt, ChunkWords;
    if chunks != [] {
      var n := |chunks| - 1;
      var before, last := Laid(chunks[..n]), ChunkWords(chunks[n]);
      var words := trace[at..at + |Laid(chunks)|];
      assert words[..|before|] == before && words[|before|..] == last;
      assert trace[at..at + |before|] == words[..|before|];
      assert trace[at + |before|..at + |before| + |last|] == words[|before|..];
      LaidBack(trace, chunks[..n], at);
      ChunkBack(trace, at + |before|, chunks[n]);
      assert chunks == chunks[..n] + [chunks[n]];
    }
  }

  /** Whatever the writer has completed, the reader recovers, up to the number of chunks it accepts. */
  lemma ReaderRecovers(trace: seq<u64>, chunks: seq<Chunk>, end: nat)
    requires AllFit(chunks) && 1 <= end <= |trace| && trace[0] == |chunks| && trace[1..end] == Laid(chunks)
    ensures ChunksFrom(trace, 1, trace[0]) == Some((chunks, end))
  {
    LaidBack(trace, chunks, 1);
  }
}
