/** Several threads each run the whole program and record their own blocks; merging their traces in
    turn gives what a single recording run gives. */
module ZiskEmulator {
  import opened Words
  import opened Wrappers
  import opened MemoryModel
  import opened MemObject
  import opened EmuContext
  import M = Machine
  import opened Traces
  import opened Chunks
  import ChunkReplay
  import opened Emulator

  /** How many blocks the first n threads own together. */
  function SumOwn(blocks: nat, t: nat, n: nat): nat
    requires t > 0
  {
    if n == 0 then 0 else SumOwn(blocks, t, n - 1) + OwnBlocks(blocks, t, n - 1)
  }

  lemma {:induction false} SumOwnZero(t: nat, n: nat)
    requires t > 0
    ensures SumOwn(0, t, n) == 0
  {
    if n > 0 { SumOwnZero(t, n - 1); }
  }

  lemma {:induction false} SumOwnNext(blocks: nat, t: nat, n: nat)
    requires t > 0
    ensures SumOwn(blocks + 1, t, n) == SumOwn(blocks, t, n) + (if blocks % t < n then 1 else 0)
  {
    if n > 0 {
      SumOwnNext(blocks, t, n - 1);
    }
  }

  /** Every block has exactly one owner. */
  lemma {:induction false} OwnersCover(blocks: nat, t: nat)
    requires t > 0
    ensures SumOwn(blocks, t, t) == blocks
  {
    if blocks == 0 {
      SumOwnZero(t, t);
    } else {
      OwnersCover(blocks - 1, t);
      SumOwnNext(blocks - 1, t, t);
      ModBound(blocks - 1, t);
    }
  }

  lemma ModBound(n: nat, t: nat)
    requires t > 0
    ensures n % t < t
  {
  }

  /** The lengths of the traces of the first n threads. */
  function TotalLength(all: seq<seq<EmuTrace>>): nat {
    if all == [] then 0 else TotalLength(all[..|all| - 1]) + |all[|all| - 1]|
  }

  /** all[x] are the traces of thread x. */
  ghost predicate ThreadTraces(p: M.Platform, s: M.State, k: nat, n: nat, t: nat, all: seq<seq<EmuTrace>>)
    requires k > 0 && t > 0
  {
    forall x :: 0 <= x < |all| ==> OwnChunks(p, s, k, n, t, x, all[x])
  }

  lemma {:induction false} TotalLengthIs(p: M.Platform, s: M.State, k: nat, n: nat, t: nat, all: seq<seq<EmuTrace>>)
    requires k > 0 && t > 0 && ThreadTraces(p, s, k, n, t, all)
    ensures TotalLength(all) == SumOwn(NumBlocks(n, k), t, |all|)
    decreases |all|
  {
    hide OwnChunk, NumBlocks;
    if all != [] {
      var last := |all| - 1;
      TotalLengthIs(p, s, k, n, t, all[..last]);
      assert OwnChunks(p, s, k, n, t, last, all[last]);
    }
  }

  /** In the merge, block x + y * t is found at place y of thread x. */
  lemma MergeIndex(p: M.Platform, s: M.State, k: nat, n: nat, t: nat, all: seq<seq<EmuTrace>>, i: nat, x: nat, y: nat)
    requires k > 0 && t > 0 && |all| == t && ThreadTraces(p, s, k, n, t, all) && i < NumBlocks(n, k)
    requires x < t && i == x + y * t
    ensures y < |all[x]| && OwnChunk(p, s, k, n, i, all[x][y])
  {
    hide OwnChunk, NumBlocks;
    assert OwnChunks(p, s, k, n, t, x, all[x]);
    OwnIndex(NumBlocks(n, k), t, x);
    var o := OwnBlocks(NumBlocks(n, k), t, x);
    if o <= y {
      MulMono(o, y, t);
    }
  }

  lemma MulMono(x: nat, y: nat, k: nat)
    requires x <= y
    ensures x * k <= y * k
  {
    if x < y { MulLe(x, y, k); }
  }

  lemma OneLimit(n: nat, k: nat, maxSteps: nat)
    requires k > 0
    ensures BelowLimit(n, k, 1, 0, maxSteps) <==> n == 0 || n < maxSteps
  {
    hide Mine;
    if n > 0 {
      OneThread(n - 1, k);
    }
  }

  lemma ManyLimits(n: nat, k: nat, t: nat, maxSteps: nat)
    requires k > 0 && t > 0
    ensures (forall x :: 0 <= x < t ==> BelowLimit(n, k, t, x, maxSteps)) <==> n == 0 || n < maxSteps
  {
    if n > 0 {
      var x := (n - 1) / k % t;
      ModBound((n - 1) / k, t);
      assert Mine(n - 1, k, t, x);
      hide Mine;
      if BelowLimit(n, k, t, x, maxSteps) {
        assert n < maxSteps;
      }
    }
  }

  /** All threads complete exactly when a single recording run does. */
  lemma ThreadsComplete(p: M.Platform, s: M.State, n: nat, k: nat, t: nat, maxSteps: nat)
    requires k > 0 && t > 0
    ensures Completes(p, s, n, k, 1, 0, maxSteps) <==> forall x :: 0 <= x < t ==> Completes(p, s, n, k, t, x, maxSteps)
  {
    hide Halts, BelowLimit;
    OneLimit(n, k, maxSteps);
    ManyLimits(n, k, t, maxSteps);
    assert (forall x :: 0 <= x < t ==> Completes(p, s, n, k, t, x, maxSteps)) ==> Completes(p, s, n, k, t, 0, maxSteps);
    assert forall x :: 0 <= x < t ==>
      (Completes(p, s, n, k, t, x, maxSteps) <==> Halts(p, s, n) && BelowLimit(n, k, t, x, maxSteps));
  }

  /** The state every run starts recording from. */
  ghost function Start(roData: seq<Piece>, input: seq<u8>): M.State
    requires Loadable(roData, input)
  {
    InitialState(InitialMemory(roData, input)).(mode := M.GenerateMemReads)
  }

  /** The traces of thread x, whatever the length of the run turns out to be. */
  ghost predicate OwnTraces(p: M.Platform, s: M.State, k: nat, t: nat, x: nat, traces: seq<EmuTrace>)
    requires k > 0 && t > 0
  {
    forall n: nat :: Halts(p, s, n) ==> OwnChunks(p, s, k, n, t, x, traces)
  }

  lemma OwnTracesOf(p: M.Platform, s: M.State, k: nat, n: nat, t: nat, x: nat, traces: seq<EmuTrace>)
    requires k > 0 && t > 0 && Halts(p, s, n) && OwnChunks(p, s, k, n, t, x, traces)
    ensures OwnTraces(p, s, k, t, x, traces)
  {
    hide OwnChunks, Halts;
    forall m: nat | Halts(p, s, m)
      ensures OwnChunks(p, s, k, m, t, x, traces)
    {
      HaltsOnce(p, s, m, n);
    }
  }

  /** One thread: a run of its own from the start. */
  method RunThread(p: M.Platform, roData: seq<Piece>, input: seq<u8>, threads: nat, thread: nat, numSteps: nat, maxSteps: nat)
    returns (r: Option<seq<EmuTrace>>)
    requires Loadable(roData, input) && thread < threads && numSteps > 0
    ensures r.Some? <==> exists n: nat :: Completes(p, Start(roData, input), n, numSteps, threads, thread, maxSteps)
    ensures r.Some? ==> OwnTraces(p, Start(roData, input), numSteps, threads, thread, r.value)
  {
    hide Halts, OwnChunks, Completes, Follows, InitialState, InitialMemory, Loadable, RawMemory.Valid, OwnTraces;
    var mem := CreateLoaded(roData, input);
    var emu := new Emu(p, mem);
    assert emu.Recording() == Start(roData, input);
    r := emu.ParRun(threads, thread, numSteps, maxSteps);
    if r.Some? {
      if !emu.end {
        return None;
      }
      OwnTracesOf(p, Start(roData, input), numSteps, emu.step, threads, thread, r.value);
    }
  }

  method CreateLoaded(roData: seq<Piece>, input: seq<u8>) returns (mem: Mem)
    requires Loadable(roData, input)
    ensures fresh(mem) && mem.Valid() && mem.View() == InitialMemory(roData, input)
  {
    hide InitialSections, LeBytes, Disjoint;
    InitialValid(roData, input);
    var r := CreateMemory(roData, input);
    mem := r.value;
  }

  ghost predicate AllComplete(p: M.Platform, s: M.State, k: nat, t: nat, maxSteps: nat, done: nat)
    requires k > 0 && t > 0
  {
    forall x :: 0 <= x < done ==> SomeComplete(p, s, k, t, x, maxSteps)
  }

  ghost predicate SomeComplete(p: M.Platform, s: M.State, k: nat, t: nat, x: nat, maxSteps: nat)
    requires k > 0 && t > 0
  {
    exists n: nat :: Completes(p, s, n, k, t, x, maxSteps)
  }

  ghost predicate AllOwn(p: M.Platform, s: M.State, k: nat, t: nat, all: seq<seq<EmuTrace>>)
    requires k > 0 && t > 0
  {
    forall x :: 0 <= x < |all| ==> OwnTraces(p, s, k, t, x, all[x])
  }

  /** All threads of a run; None when one of them panics. */
  method RunThreads(p: M.Platform, roData: seq<Piece>, input: seq<u8>, threads: nat, numSteps: nat, maxSteps: nat)
    returns (r: Option<seq<seq<EmuTrace>>>)
    requires Loadable(roData, input) && threads > 0 && numSteps > 0
    ensures r.Some? <==> exists n: nat :: Completes(p, Start(roData, input), n, numSteps, 1, 0, maxSteps)
    ensures r.Some? ==> |r.value| == threads && AllOwn(p, Start(roData, input), numSteps, threads, r.value)
  {
    hide Halts, OwnTraces, BelowLimit, InitialMemory, Loadable, Start, Completes;
    ghost var s := Start(roData, input);
    var all := [];
    var x := 0;
    while x < threads
      invariant 0 <= x <= threads && |all| == x
      invariant AllComplete(p, s, numSteps, threads, maxSteps, x)
      invariant AllOwn(p, s, numSteps, threads, all)
    {
      var traces := RunThread(p, roData, input, threads, x, numSteps, maxSteps);
      if traces.None? {
        NoRun(p, s, numSteps, threads, x, maxSteps);
        return None;
      }
      all := all + [traces.value];
      x := x + 1;
    }
    AllCompleteOnce(p, s, numSteps, threads, maxSteps);
    return Some(all);
  }

  /** When every thread completes, the single run does. */
  lemma AllCompleteOnce(p: M.Platform, s: M.State, k: nat, t: nat, maxSteps: nat)
    requires k > 0 && t > 0 && AllComplete(p, s, k, t, maxSteps, t)
    ensures exists n: nat :: Completes(p, s, n, k, 1, 0, maxSteps)
  {
    hide Halts, BelowLimit;
    assert SomeComplete(p, s, k, t, 0, maxSteps);
    var n: nat :| Completes(p, s, n, k, t, 0, maxSteps);
    forall x | 0 <= x < t
      ensures Completes(p, s, n, k, t, x, maxSteps)
    {
      assert SomeComplete(p, s, k, t, x, maxSteps);
      CompletesAt(p, s, n, k, t, x, maxSteps);
    }
    ThreadsComplete(p, s, n, k, t, maxSteps);
  }

  lemma NoRun(p: M.Platform, s: M.State, k: nat, t: nat, x: nat, maxSteps: nat)
    requires k > 0 && x < t && !exists n: nat :: Completes(p, s, n, k, t, x, maxSteps)
    ensures !exists n: nat :: Completes(p, s, n, k, 1, 0, maxSteps)
  {
    hide Halts, BelowLimit, Completes;
    forall n: nat
      ensures !Completes(p, s, n, k, 1, 0, maxSteps)
    {
      ThreadsComplete(p, s, n, k, t, maxSteps);
      assert !Completes(p, s, n, k, t, x, maxSteps);
    }
  }

  /** A run ends only once, so it completes there if anywhere. */
  lemma CompletesAt(p: M.Platform, s: M.State, n: nat, k: nat, t: nat, x: nat, maxSteps: nat)
    requires k > 0 && t > 0 && Halts(p, s, n) && exists m: nat :: Completes(p, s, m, k, t, x, maxSteps)
    ensures Completes(p, s, n, k, t, x, maxSteps)
  {
    hide Halts, BelowLimit;
    var m: nat :| Completes(p, s, m, k, t, x, maxSteps);
    HaltsOnce(p, s, m, n);
  }

  /** The value that is left where a trace has been taken. */
  function DefaultTrace(): EmuTrace {
    EmuTrace(EmuTraceStart(0, 0, 0, 0, seq(32, _ => 0)), 0, 0, [], false)
  }

  /** Slots from block i on are still as the threads left them. */
  ghost predicate Untaken(all: seq<seq<EmuTrace>>, now: seq<seq<EmuTrace>>, t: nat, i: nat) {
    && |now| == |all|
    && (forall x :: 0 <= x < |all| ==> |now[x]| == |all[x]|)
    && forall x, y :: 0 <= x < |all| && 0 <= y < |all[x]| && i <= x + y * t ==> now[x][y] == all[x][y]
  }

  lemma TakenOne(all: seq<seq<EmuTrace>>, now: seq<seq<EmuTrace>>, t: nat, i: nat, x: nat, y: nat, d: EmuTrace)
    requires |all| == t && Untaken(all, now, t, i) && x < t && y < |all[x]| && i == x + y * t
    ensures Untaken(all, now[x := now[x][y := d]], t, i + 1)
  {
    var after := now[x := now[x][y := d]];
    forall x', y' | 0 <= x' < |all| && 0 <= y' < |all[x']| && i + 1 <= x' + y' * t
      ensures after[x'][y'] == all[x'][y']
    {
      assert x' == x && y' == y ==> x' + y' * t == i;
    }
  }

  lemma UntakenAt(all: seq<seq<EmuTrace>>, now: seq<seq<EmuTrace>>, t: nat, i: nat, x: nat, y: nat)
    requires Untaken(all, now, t, i) && x < |all| && y < |all[x]| && i == x + y * t
    ensures x < |now| && y < |now[x]| && now[x][y] == all[x][y]
  {
  }

  lemma UntakenFirst(all: seq<seq<EmuTrace>>, t: nat)
    ensures Untaken(all, all, t, 0)
  {
  }

  /** The first blocks of a run, in order. */
  ghost predicate FirstBlocks(p: M.Platform, s: M.State, k: nat, n: nat, traces: seq<EmuTrace>) {
    forall b :: 0 <= b < |traces| ==> OwnChunk(p, s, k, n, b, traces[b])
  }

  lemma AllBlocks(p: M.Platform, s: M.State, k: nat, n: nat, traces: seq<EmuTrace>)
    requires k > 0 && |traces| == NumBlocks(n, k) && FirstBlocks(p, s, k, n, traces)
    ensures OwnChunks(p, s, k, n, 1, 0, traces)
  {
    hide OwnChunk;
    ChunkReplay.OneOwner(NumBlocks(n, k));
    forall y | 0 <= y < |traces|
      ensures OwnChunk(p, s, k, n, 0 + y * 1, traces[y])
    {
    }
  }

  /** Takes the traces of the threads in turn: block i from place i / t of thread i % t. No trace is
      missing, and none is taken twice. */
  method MergeTraces(ghost p: M.Platform, ghost s: M.State, ghost k: nat, ghost n: nat, t: nat, all: seq<seq<EmuTrace>>)
    returns (vecTraces: seq<EmuTrace>)
    requires k > 0 && t > 0 && |all| == t && ThreadTraces(p, s, k, n, t, all)
    ensures OwnChunks(p, s, k, n, 1, 0, vecTraces)
  {
    hide OwnChunks, OwnChunk, Untaken, NumBlocks, ThreadTraces;
    var capacity := TotalLength(all);
    TotalLengthIs(p, s, k, n, t, all);
    OwnersCover(NumBlocks(n, k), t);
    var minimalTraces := all;
    vecTraces := [];
    UntakenFirst(all, t);
    for i := 0 to capacity
      invariant |vecTraces| == i && FirstBlocks(p, s, k, n, vecTraces)
      invariant Untaken(all, minimalTraces, t, i)
    {
      var x := i % t;
      var y := i / t;
      DivBounds(i, t);
      ModBound(i, t);
      MergeIndex(p, s, k, n, t, all, i, x, y);
      UntakenAt(all, minimalTraces, t, i, x, y);
      vecTraces := vecTraces + [minimalTraces[x][y]];
      TakenOne(all, minimalTraces, t, i, x, y, DefaultTrace());
      minimalTraces := minimalTraces[x := minimalTraces[x][y := DefaultTrace()]];
    }
    AllBlocks(p, s, k, n, vecTraces);
  }

  /** Runs all threads and merges their traces in turn. The result is the sequence of all blocks of
      the run, which is what RunGenTrace of a single emulator records. */
  method ComputeMinimalTraces(p: M.Platform, roData: seq<Piece>, input: seq<u8>, numThreads: nat, traceSteps: nat, maxSteps: nat)
    returns (r: Option<seq<EmuTrace>>)
    requires Loadable(roData, input)
    ensures numThreads == 0 ==> r == Some([])
    ensures numThreads > 0 && traceSteps == 0 ==> r.None?
    ensures numThreads > 0 && traceSteps > 0 ==>
              (r.Some? <==> exists n: nat :: Completes(p, Start(roData, input), n, traceSteps, 1, 0, maxSteps))
    ensures numThreads > 0 && r.Some? ==> OwnTraces(p, Start(roData, input), traceSteps, 1, 0, r.value)
  {
    hide Halts, OwnChunk, BelowLimit, InitialMemory, Loadable, Start, OwnTraces;
    if numThreads == 0 {
      return Some([]);
    }
    if traceSteps == 0 {
      return None;
    }
    ghost var s := Start(roData, input);
    var threads := RunThreads(p, roData, input, numThreads, traceSteps, maxSteps);
    if threads.None? {
      return None;
    }
    ghost var n: nat :| Completes(p, s, n, traceSteps, 1, 0, maxSteps);
    AllOwnAt(p, s, traceSteps, n, numThreads, threads.value);
    var vecTraces := MergeTraces(p, s, traceSteps, n, numThreads, threads.value);
    OwnTracesOf(p, s, traceSteps, n, 1, 0, vecTraces);
    r := Some(vecTraces);
  }

  lemma AllOwnAt(p: M.Platform, s: M.State, k: nat, n: nat, t: nat, all: seq<seq<EmuTrace>>)
    requires k > 0 && t > 0 && Halts(p, s, n) && AllOwn(p, s, k, t, all)
    ensures ThreadTraces(p, s, k, n, t, all)
  {
    hide Halts, OwnChunks;
    forall x | 0 <= x < |all|
      ensures OwnChunks(p, s, k, n, t, x, all[x])
    {
      assert OwnTraces(p, s, k, t, x, all[x]);
    }
  }

  /** Parallel equals sequential: the merged traces and the traces of a single recording run, both
      as described by their methods' postconditions, are the same sequence. */
  lemma ParallelEqualsSequential(p: M.Platform, s: M.State, k: nat, merged: seq<EmuTrace>, n: nat, sequential: seq<EmuTrace>)
    requires k > 0 && OwnTraces(p, s, k, 1, 0, merged)
    requires Halts(p, s, n) && OwnChunks(p, s, k, n, 1, 0, sequential)
    ensures merged == sequential
  {
    hide Halts, OwnChunks;
    OwnChunksUnique(p, s, k, n, 1, 0, merged, sequential);
  }
}
