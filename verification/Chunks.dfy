/**
 * A run cut into blocks of k steps, of which a thread records every t-th. One thread of one
 * records them all.
 */
module Chunks {
  import opened Words
  import opened Wrappers
  import opened MemoryModel
  import opened Machine
  import opened RecordReplay
  import opened Traces

  /** The trace of len recorded steps from a state. */
  function ChunkFrom(p: Platform, start: State, len: nat): Option<EmuTrace> {
    var r :- Record(p, start, len);
    Some(if len == 0 then NewTrace(start)
         else EmuTrace(StartOf(start), r.state.c, len, r.words, r.state.end))
  }

  function Min(x: int, y: int): int {
    if x <= y then x else y
  }

  /** The trace of len steps of the run from s, starting with step number `from`. */
  function ChunkAt(p: Platform, s: State, from: nat, len: nat): Option<EmuTrace> {
    var start :- Run(p, s, from);
    ChunkFrom(p, start, len)
  }

  // ---- blocks and threads ----

  /** How many blocks of k steps it takes to hold n steps. */
  function NumBlocks(n: nat, k: nat): nat
    requires k > 0
  {
    if n == 0 then 0 else (n - 1) / k + 1
  }

  /** How many of the first blocks belong to thread x of t. */
  function OwnBlocks(blocks: nat, t: nat, x: nat): nat
    requires t > 0
  {
    if blocks == 0 then 0
    else OwnBlocks(blocks - 1, t, x) + (if (blocks - 1) % t == x then 1 else 0)
  }

  /** Step number n falls in a block of thread x. */
  predicate Mine(n: nat, k: nat, t: nat, x: nat)
    requires k > 0 && t > 0
  {
    n / k % t == x
  }

  /** The traces of thread x after n steps: its blocks, in order, and nothing else. */
  ghost predicate OwnChunks(p: Platform, s: State, k: nat, n: nat, t: nat, x: nat, traces: seq<EmuTrace>)
    requires k > 0 && t > 0
  {
    && |traces| == OwnBlocks(NumBlocks(n, k), t, x)
    && forall y :: 0 <= y < |traces| ==> OwnChunk(p, s, k, n, x + y * t, traces[y])
  }

  /** Block b of the first n steps: at most k of them, from step b * k on. */
  ghost predicate OwnChunk(p: Platform, s: State, k: nat, n: nat, b: nat, trace: EmuTrace) {
    b * k < n && ChunkAt(p, s, b * k, Min(k, n - b * k)) == Some(trace)
  }

  // ---- block arithmetic ----

  lemma DivBounds(n: nat, k: nat)
    requires k > 0
    ensures n / k * k <= n < n / k * k + k
    ensures n % k == n - n / k * k
  {
    assert n == k * (n / k) + n % k;
  }

  lemma MulLe(x: nat, y: nat, k: nat)
    requires x < y
    ensures x * k + k <= y * k
  {
    assert (y - x - 1) * k >= 0;
    assert (y - x - 1) * k == y * k - x * k - k;
  }

  lemma DivUnique(n: nat, k: nat, q: nat)
    requires k > 0 && q * k <= n < q * k + k
    ensures n / k == q
  {
    DivBounds(n, k);
    if q < n / k { MulLe(q, n / k, k); }
    if n / k < q { MulLe(n / k, q, k); }
  }

  /** One more step needs one more block exactly when it starts one. */
  lemma NextBlock(n: nat, k: nat)
    requires k > 0
    ensures NumBlocks(n + 1, k) == n / k + 1
    ensures NumBlocks(n, k) == if n % k == 0 then n / k else n / k + 1
  {
    if n > 0 {
      PredBlock(n, k);
    }
  }

  lemma PredBlock(n: nat, k: nat)
    requires k > 0 && n > 0
    ensures (n - 1) / k == if n % k == 0 then n / k - 1 else n / k
  {
    var q := n / k;
    DivBounds(n, k);
    if n % k == 0 {
      if q == 0 {
        assert false;
      }
      assert (q - 1) * k == q * k - k;
      DivUnique(n - 1, k, q - 1);
    } else {
      DivUnique(n - 1, k, q);
    }
  }

  lemma ResidueOf(t: nat, x: nat, o: nat)
    requires x < t
    ensures (x + o * t) % t == x
  {
    assert x + o * t == t * o + x;
    ModUnique(x + o * t, t, o, x);
  }

  lemma SameResidue(m: nat, m': nat, t: nat)
    requires t > 0 && m <= m' < m + t && m % t == m' % t
    ensures m == m'
  {
    DivBounds(m, t);
    DivBounds(m', t);
    if m / t < m' / t { MulLe(m / t, m' / t, t); }
    if m' / t < m / t { MulLe(m' / t, m / t, t); }
  }

  /** The own blocks are x, x + t, x + 2t, ...: the next one is the first from `blocks` on. */
  lemma {:induction false} OwnIndex(blocks: nat, t: nat, x: nat)
    requires x < t
    ensures blocks <= x + OwnBlocks(blocks, t, x) * t < blocks + t
    ensures blocks % t == x <==> blocks == x + OwnBlocks(blocks, t, x) * t
  {
    var o := OwnBlocks(blocks, t, x);
    if blocks > 0 {
      OwnIndex(blocks - 1, t, x);
      var o' := OwnBlocks(blocks - 1, t, x);
      assert (o' + 1) * t == o' * t + t;
    } else {
      assert o * t == 0;
    }
    ResidueOf(t, x, o);
    if blocks % t == x {
      SameResidue(blocks, x + o * t, t);
    }
  }

  /** An own block with a smaller number lies before step number n / k * k. */
  lemma EarlierBlock(n: nat, k: nat, b: nat)
    requires k > 0 && b < n / k
    ensures b * k + k <= n
  {
    DivBounds(n, k);
    MulLe(b, n / k, k);
  }

  // ---- recording one more step ----

  lemma {:induction false} RunPrefix(p: Platform, s: State, m: nat, n: nat)
    requires m <= n && Run(p, s, n).Some?
    ensures Run(p, s, m).Some?
    decreases n
  {
    hide Step;
    if m < n {
      RunPrefix(p, s, m, n - 1);
    }
  }

  /** What a thread in state x, in agreement with the run, appends to the trace of a block when it
      records step number from + len. */
  lemma BlockGrows(p: Platform, s: State, from: nat, len: nat, x: State, trace: EmuTrace, x': State, words: seq<u64>)
    requires Executes(s) && CoreOf(Run(p, s, from + len)) == Some(Core(x))
    requires if len == 0 then trace == NewTrace(x) else ChunkAt(p, s, from, len) == Some(trace)
    requires StepGenerate(p, x) == Some((x', words))
    ensures ChunkAt(p, s, from, len + 1) == Some(Extend(trace, x', words))
  {
    hide Step, StepGenerate, Core;
    RunPrefix(p, s, from, from + len);
    var start := Run(p, s, from).value;
    RunAdd(p, s, from, len);
    RunKeepsMode(p, s, from);
    RunKeepsMode(p, s, from + len);
    RecordFollowsRun(p, start, start, len);
    CoreFields(x, Run(p, s, from + len).value);
    var y := Record(p, start, len).value.state;
    CoreFields(y, Run(p, s, from + len).value);
    RecordingInvisible(p, x, y);
    RecordingInvisible(p, x, Run(p, s, from + len).value);
    RecordingInvisible(p, y, Run(p, s, from + len).value);
    CoreFields(x', StepGenerate(p, y).value.0);
  }

  lemma CoreFields(x: State, y: State)
    requires Core(x) == Core(y)
    ensures StartOf(x) == StartOf(y) && x.c == y.c && x.end == y.end && x.mode == y.mode && x.step == y.step
  {
  }

  /** Blocks before the current one are complete: another step leaves them as they are. */
  lemma OldBlock(p: Platform, s: State, k: nat, n: nat, b: nat, trace: EmuTrace)
    requires k > 0 && OwnChunk(p, s, k, n, b, trace) && b != n / k
    ensures OwnChunk(p, s, k, n + 1, b, trace)
    ensures b < n / k
  {
    hide ChunkAt;
    DivBounds(n, k);
    if b > n / k {
      MulLe(n / k, b, k);
    }
    EarlierBlock(n, k, b);
  }

  /** A step that belongs to another thread leaves this thread's traces complete. */
  lemma OthersStep(p: Platform, s: State, k: nat, n: nat, t: nat, x: nat, traces: seq<EmuTrace>)
    requires k > 0 && x < t && OwnChunks(p, s, k, n, t, x, traces) && !Mine(n, k, t, x)
    ensures OwnChunks(p, s, k, n + 1, t, x, traces)
  {
    hide OwnChunk;
    NextBlock(n, k);
    forall y | 0 <= y < |traces|
      ensures OwnChunk(p, s, k, n + 1, x + y * t, traces[y])
    {
      ResidueOf(t, x, y);
      OldBlock(p, s, k, n, x + y * t, traces[y]);
    }
  }

  /** The traces a thread has when it starts its own step number n: a new one at a block boundary. */
  function Opened(k: nat, n: nat, traces: seq<EmuTrace>, e: State): seq<EmuTrace>
    requires k > 0
  {
    if n % k == 0 then traces + [NewTrace(e)] else traces
  }

  /** Where the trace of the current block stands. */
  lemma CurrentBlock(p: Platform, s: State, k: nat, n: nat, t: nat, x: nat, traces: seq<EmuTrace>, e: State)
    requires k > 0 && x < t && OwnChunks(p, s, k, n, t, x, traces) && Mine(n, k, t, x)
    ensures |Opened(k, n, traces, e)| == OwnBlocks(NumBlocks(n + 1, k), t, x) == OwnBlocks(n / k, t, x) + 1
    ensures x + OwnBlocks(n / k, t, x) * t == n / k
  {
    hide OwnChunk;
    NextBlock(n, k);
    OwnIndex(n / k, t, x);
  }

  /** A recorded step extends the trace of the current block and no other. */
  lemma OwnStep(p: Platform, s: State, k: nat, n: nat, t: nat, x: nat, traces: seq<EmuTrace>,
                e: State, e': State, words: seq<u64>)
    requires k > 0 && x < t && OwnChunks(p, s, k, n, t, x, traces) && Mine(n, k, t, x)
    requires Follows(p, s, n, e) && StepGenerate(p, e) == Some((e', words))
    ensures |Opened(k, n, traces, e)| > 0
    ensures var ts, last := Opened(k, n, traces, e), |Opened(k, n, traces, e)| - 1;
            OwnChunks(p, s, k, n + 1, t, x, ts[last := Extend(ts[last], e', words)])
  {
    hide ChunkAt, StepGenerate, Step, Run, Extend, Core;
    CurrentBlock(p, s, k, n, t, x, traces, e);
    DivBounds(n, k);
    var b, ts := n / k, Opened(k, n, traces, e);
    var last := |ts| - 1;
    if n % k != 0 {
      assert OwnChunk(p, s, k, n, x + last * t, traces[last]);
    }
    BlockGrows(p, s, b * k, n - b * k, e, ts[last], e', words);
    forall y | 0 <= y < last
      ensures OwnChunk(p, s, k, n + 1, x + y * t, ts[y])
    {
      MulLe(y, last, t);
      OldBlock(p, s, k, n, x + y * t, traces[y]);
    }
  }

  // ---- the whole run ----

  /** The run goes on for n steps without having ended before. */
  ghost predicate GoesOn(p: Platform, s: State, n: nat) {
    forall m :: 0 <= m < n ==> Unfinished(p, s, m)
  }

  predicate Unfinished(p: Platform, s: State, m: nat) {
    Run(p, s, m).Some? && !Run(p, s, m).value.end
  }

  /** The run from s ends after n steps. */
  ghost predicate Halts(p: Platform, s: State, n: nat) {
    GoesOn(p, s, n) && Run(p, s, n).Some? && Run(p, s, n).value.end
  }

  lemma HaltsOnce(p: Platform, s: State, m: nat, n: nat)
    requires Halts(p, s, m) && Halts(p, s, n)
    ensures m == n
  {
    hide Run;
    assert m < n ==> Unfinished(p, s, m);
    assert n < m ==> Unfinished(p, s, n);
  }

  /** Every step of thread x among the first n leaves the step counter below the limit. */
  ghost predicate BelowLimit(n: nat, k: nat, t: nat, x: nat, maxSteps: nat)
    requires k > 0 && t > 0
  {
    forall m :: 0 <= m < n && Mine(m, k, t, x) ==> m + 1 < maxSteps
  }

  /** When a thread's run completes: the program halts, and no own step reaches the limit. */
  ghost predicate Completes(p: Platform, s: State, n: nat, k: nat, t: nat, x: nat, maxSteps: nat)
    requires k > 0 && t > 0
  {
    Halts(p, s, n) && BelowLimit(n, k, t, x, maxSteps)
  }

  /** The traces of thread x of a run of n steps are determined. */
  lemma OwnChunksUnique(p: Platform, s: State, k: nat, n: nat, t: nat, x: nat, traces: seq<EmuTrace>, traces': seq<EmuTrace>)
    requires k > 0 && t > 0 && OwnChunks(p, s, k, n, t, x, traces) && OwnChunks(p, s, k, n, t, x, traces')
    ensures traces == traces'
  {
    hide ChunkAt;
    forall y | 0 <= y < |traces|
      ensures traces[y] == traces'[y]
    {
      assert OwnChunk(p, s, k, n, x + y * t, traces[y]);
      assert OwnChunk(p, s, k, n, x + y * t, traces'[y]);
    }
  }

  /** Among any t * k consecutive steps there is one of every thread. */
  lemma OwnWithin(from: nat, k: nat, t: nat, x: nat) returns (m: nat)
    requires k > 0 && x < t
    ensures from <= m < from + t * k && Mine(m, k, t, x)
  {
    var blocks := NumBlocks(from, k);
    OwnIndex(blocks, t, x);
    var b := x + OwnBlocks(blocks, t, x) * t;
    ResidueOf(t, x, OwnBlocks(blocks, t, x));
    m := b * k;
    DivUnique(m, k, b);
    CeilBounds(from, k);
    assert b <= blocks + (t - 1);
    if b < blocks + (t - 1) { MulLe(b, blocks + (t - 1), k); }
    assert (blocks + (t - 1)) * k == blocks * k + t * k - k;
    if blocks < b { MulLe(blocks, b, k); }
  }

  lemma CeilBounds(n: nat, k: nat)
    requires k > 0
    ensures n <= NumBlocks(n, k) * k < n + k
  {
    if n > 0 {
      DivBounds(n - 1, k);
      assert ((n - 1) / k + 1) * k == (n - 1) / k * k + k;
    }
  }

  /** A thread that has not run into the limit has not gone much beyond it. */
  lemma LimitNear(n: nat, k: nat, t: nat, x: nat, maxSteps: nat)
    requires k > 0 && x < t && BelowLimit(n, k, t, x, maxSteps)
    ensures n <= maxSteps + t * k
  {
    if n > maxSteps + t * k {
      MulLe(0, t, k);
      var m := OwnWithin(maxSteps, k, t, x);
    }
  }

  /** The run stops at a state without a successor: it never halts. */
  lemma NeverHalts(p: Platform, s: State, n: nat)
    requires GoesOn(p, s, n) && Run(p, s, n).None?
    ensures forall m: nat :: !Halts(p, s, m)
  {
    hide Run;
    forall m: nat
      ensures !Halts(p, s, m)
    {
      assert m < n ==> Unfinished(p, s, m);
      if Halts(p, s, m) {
        RunPrefix(p, s, n, m);
      }
    }
  }

  /** An own step that reaches the limit, before or at the end of the run, rules out completion. */
  lemma LimitReached(p: Platform, s: State, n: nat, k: nat, t: nat, x: nat, maxSteps: nat)
    requires k > 0 && t > 0 && GoesOn(p, s, n + 1) && Mine(n, k, t, x) && n + 1 >= maxSteps
    ensures forall m: nat :: !Completes(p, s, m, k, t, x, maxSteps)
  {
    hide Run;
    forall m: nat
      ensures !Completes(p, s, m, k, t, x, maxSteps)
    {
      assert m <= n ==> Unfinished(p, s, m);
    }
  }

  /** A thread in state e has run n steps of the program without reaching its end before, mixing
      plain and recording steps as it likes. */
  ghost predicate Follows(p: Platform, s: State, n: nat, e: State) {
    Executes(s) && CoreOf(Run(p, s, n)) == Some(Core(e)) && GoesOn(p, s, n)
  }

  lemma FollowsStart(p: Platform, s: State)
    requires Executes(s)
    ensures Follows(p, s, 0, s)
  {
  }

  /** Either kind of step keeps following the run, unless the run itself stops there. */
  lemma FollowsOn(p: Platform, s: State, n: nat, e: State)
    requires Follows(p, s, n, e) && !e.end
    ensures GoesOn(p, s, n + 1)
    ensures if Step(p, e).Some? then Follows(p, s, n + 1, Step(p, e).value) else forall m: nat :: !Halts(p, s, m)
    ensures if StepGenerate(p, e).Some? then Follows(p, s, n + 1, StepGenerate(p, e).value.0)
            else forall m: nat :: !Halts(p, s, m)
  {
    var t := Run(p, s, n).value;
    CoreFields(t, e);
    hide Step, StepGenerate, Core;
    RunKeepsMode(p, s, n);
    StepAgrees(p, e, t);
    RecordingInvisible(p, e, t);
    assert Unfinished(p, s, n);
    if Step(p, t).None? {
      NeverHalts(p, s, n + 1);
    }
  }

  lemma FollowsEnd(p: Platform, s: State, n: nat, e: State)
    requires Follows(p, s, n, e) && e.end
    ensures Halts(p, s, n)
  {
  }

  lemma NoLimit(k: nat, t: nat, x: nat, maxSteps: nat)
    requires k > 0 && t > 0
    ensures BelowLimit(0, k, t, x, maxSteps)
  {
  }

  lemma LimitOn(n: nat, k: nat, t: nat, x: nat, maxSteps: nat)
    requires k > 0 && t > 0 && BelowLimit(n, k, t, x, maxSteps)
    ensures !Mine(n, k, t, x) || n + 1 < maxSteps ==> BelowLimit(n + 1, k, t, x, maxSteps)
  {
    hide Mine;
  }

  lemma OneThread(n: nat, k: nat)
    requires k > 0
    ensures Mine(n, k, 1, 0)
  {
  }

  lemma NoChunks(p: Platform, s: State, k: nat, t: nat, x: nat)
    requires k > 0 && t > 0
    ensures OwnChunks(p, s, k, 0, t, x, [])
  {
  }
}
