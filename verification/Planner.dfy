/** Cutting the instructions of several chunks, taken one after the other, into scopes of one size. */
module Planner {
  import opened Words
  import opened Chunks

  datatype InstCount = InstCount(chunkId: nat, instCount: nat)

  /** For every chunk a scope touches: how many of its instructions, and how many to skip first. */
  type Scope = map<nat, (nat, nat)>

  datatype CheckPoint = CheckPoint(chunks: set<nat>, scope: Scope)

  /** The position of the first instruction of chunk c among all instructions. */
  function First(counts: seq<InstCount>, c: nat): nat
    requires c <= |counts|
  {
    if c == 0 then 0 else First(counts, c - 1) + counts[c - 1].instCount
  }

  function Total(counts: seq<InstCount>): nat {
    First(counts, |counts|)
  }

  function Max(x: int, y: int): int {
    if x >= y then x else y
  }

  /** Where positions from up to `to` of the concatenated chunks begin and end in chunk c. */
  function From(counts: seq<InstCount>, from: nat, c: nat): int
    requires c < |counts|
  {
    Max(from, First(counts, c))
  }

  function To(counts: seq<InstCount>, to: nat, c: nat): int
    requires c < |counts|
  {
    Min(to, First(counts, c + 1))
  }

  predicate Touches(counts: seq<InstCount>, from: nat, to: nat, c: nat) {
    c < |counts| && From(counts, from, c) < To(counts, to, c)
  }

  /** The scope that holds exactly the positions from up to `to`. */
  ghost function ScopeOf(counts: seq<InstCount>, from: nat, to: nat): Scope {
    map c: nat | c < |counts| && Touches(counts, from, to, c) ::
      (To(counts, to, c) - From(counts, from, c), From(counts, from, c) - First(counts, c))
  }

  function Start(k: nat, size: nat): nat {
    k * size
  }

  /** Scope number k. */
  ghost function PlannedScope(counts: seq<InstCount>, size: nat, k: nat): Scope {
    ScopeOf(counts, Start(k, size), Min(Start(k, size) + size, Total(counts)))
  }

  // ---- arithmetic ----

  lemma {:induction false} FirstMonotone(counts: seq<InstCount>, c: nat, d: nat)
    requires c <= d <= |counts|
    ensures First(counts, c) <= First(counts, d)
    decreases d
  {
    if c < d {
      FirstMonotone(counts, c, d - 1);
    }
  }

  lemma StartNext(k: nat, size: nat)
    ensures Start(k + 1, size) == Start(k, size) + size
  {
  }

  /** Every position lies in some chunk. */
  lemma {:induction false} ChunkOf(counts: seq<InstCount>, pos: nat, n: nat) returns (c: nat)
    requires n <= |counts| && pos < First(counts, n)
    ensures c < n && First(counts, c) <= pos < First(counts, c + 1)
  {
    if First(counts, n - 1) <= pos {
      c := n - 1;
    } else {
      c := ChunkOf(counts, pos, n - 1);
    }
  }

  // ---- one more range ----

  /** The next range of chunk c either starts the chunk or starts the scope, so the scope has no
      entry for the chunk yet. */
  lemma NotYet(counts: seq<InstCount>, from: nat, done: nat, c: nat)
    requires c < |counts| && from <= done && First(counts, c) <= done
    requires done == First(counts, c) || done == from
    ensures c !in ScopeOf(counts, from, done)
  {
  }

  lemma OtherChunk(counts: seq<InstCount>, from: nat, done: nat, c: nat, n: nat, d: nat)
    requires c < |counts| && First(counts, c) <= done && done + n <= First(counts, c + 1)
    requires d < |counts| && d != c
    ensures Touches(counts, from, done + n, d) <==> Touches(counts, from, done, d)
    ensures Touches(counts, from, done, d) ==> To(counts, done + n, d) == To(counts, done, d)
  {
    hide First;
    if d < c {
      FirstMonotone(counts, d + 1, c);
    } else {
      FirstMonotone(counts, c + 1, d);
    }
  }

  lemma ThisChunk(counts: seq<InstCount>, from: nat, done: nat, c: nat, n: nat)
    requires c < |counts| && from <= done && First(counts, c) <= done && 0 < n && done + n <= First(counts, c + 1)
    requires done == First(counts, c) || done == from
    ensures Touches(counts, from, done + n, c)
    ensures From(counts, from, c) == done && To(counts, done + n, c) == done + n
  {
    hide First;
  }

  lemma ScopeAt(counts: seq<InstCount>, from: nat, to: nat, d: nat)
    ensures d in ScopeOf(counts, from, to) <==> Touches(counts, from, to, d)
    ensures d in ScopeOf(counts, from, to) ==>
              ScopeOf(counts, from, to)[d] == (To(counts, to, d) - From(counts, from, d), From(counts, from, d) - First(counts, d))
  {
  }

  lemma ScopeExtended(counts: seq<InstCount>, from: nat, done: nat, c: nat, n: nat)
    requires c < |counts| && from <= done && First(counts, c) <= done && 0 < n && done + n <= First(counts, c + 1)
    requires done == First(counts, c) || done == from
    ensures ScopeOf(counts, from, done + n) == ScopeOf(counts, from, done)[c := (n, done - First(counts, c))]
  {
    hide ScopeOf, Touches, From, To, First;
    var after, before := ScopeOf(counts, from, done + n), ScopeOf(counts, from, done);
    var expected := before[c := (n, done - First(counts, c))];
    ThisChunk(counts, from, done, c, n);
    forall d: nat
      ensures d in after <==> d in expected
      ensures d in after ==> after[d] == expected[d]
    {
      ScopeAt(counts, from, done + n, d);
      ScopeAt(counts, from, done, d);
      if d < |counts| && d != c {
        OtherChunk(counts, from, done, c, n, d);
      }
      if d >= |counts| {
        NoChunk(counts, from, done, d);
        NoChunk(counts, from, done + n, d);
      }
    }
    assert after == expected;
  }

  lemma NoChunk(counts: seq<InstCount>, from: nat, to: nat, d: nat)
    requires d >= |counts|
    ensures !Touches(counts, from, to, d)
  {
  }

  lemma EmptyScope(counts: seq<InstCount>, from: nat)
    ensures ScopeOf(counts, from, from) == map[]
  {
  }

  /** A scope is empty only when it has no positions. */
  lemma ScopeNonEmpty(counts: seq<InstCount>, from: nat)
    requires from < Total(counts)
    ensures ScopeOf(counts, from, Total(counts)) != map[]
  {
    var c := ChunkOf(counts, from, |counts|);
    FirstMonotone(counts, c + 1, |counts|);
    assert Touches(counts, from, Total(counts), c);
    assert c in ScopeOf(counts, from, Total(counts));
  }

  // ---- the plan ----

  ghost predicate AllPlanned(counts: seq<InstCount>, size: nat, points: seq<CheckPoint>) {
    forall k :: 0 <= k < |points| ==> PlannedAt(counts, size, points[k], k)
  }

  ghost predicate PlannedAt(counts: seq<InstCount>, size: nat, point: CheckPoint, k: nat) {
    point.scope == PlannedScope(counts, size, k) && point.chunks == point.scope.Keys
  }

  lemma FullScope(counts: seq<InstCount>, size: nat, k: nat, scope: Scope)
    requires Start(k, size) + size <= Total(counts) && scope == ScopeOf(counts, Start(k, size), Start(k, size) + size)
    ensures PlannedAt(counts, size, CheckPoint(scope.Keys, scope), k)
  {
    hide ScopeOf, Start;
  }

  /** Cuts the chunks into scopes. The scopes are the ranges of `size` positions, in order. */
  method Plan(counts: seq<InstCount>, size: nat) returns (checkpoints: seq<CheckPoint>)
    ensures size == 0 ==> checkpoints == []
    ensures size > 0 ==> |checkpoints| == NumBlocks(Total(counts), size)
    ensures size > 0 ==> AllPlanned(counts, size, checkpoints)
  {
    hide ScopeOf, Start, PlannedAt;
    if counts == [] || size == 0 {
      return [];
    }
    checkpoints := [];
    var currentScope: Scope := map[];
    var remainingSize := size;
    ghost var from := 0;
    EmptyScope(counts, 0);
    assert Start(0, size) == 0 by { StartZero(size); }
    for currentChunk := 0 to |counts|
      invariant from == Start(|checkpoints|, size) && AllPlanned(counts, size, checkpoints)
      invariant from <= First(counts, currentChunk) < from + size && remainingSize == from + size - First(counts, currentChunk)
      invariant currentScope == ScopeOf(counts, from, First(counts, currentChunk))
    {
      var instCount := counts[currentChunk].instCount;
      var cumulativeOffset := 0;
      ghost var first := First(counts, currentChunk);
      FirstMonotone(counts, currentChunk + 1, |counts|);
      while instCount > 0
        invariant instCount >= 0 && cumulativeOffset >= 0 && cumulativeOffset + instCount == counts[currentChunk].instCount
        invariant from == Start(|checkpoints|, size) && AllPlanned(counts, size, checkpoints)
        invariant from <= first + cumulativeOffset < from + size && remainingSize == from + size - (first + cumulativeOffset)
        invariant currentScope == ScopeOf(counts, from, first + cumulativeOffset)
        invariant cumulativeOffset == 0 || instCount == 0 || from == first + cumulativeOffset
        decreases instCount
      {
        ghost var done := first + cumulativeOffset;
        var checkpointSize := if remainingSize < instCount then remainingSize else instCount;
        NotYet(counts, from, done, currentChunk);
        assert currentChunk !in currentScope;
        ScopeExtended(counts, from, done, currentChunk, checkpointSize);
        currentScope := currentScope[currentChunk := (checkpointSize, cumulativeOffset)];
        cumulativeOffset := cumulativeOffset + checkpointSize;
        instCount := instCount - checkpointSize;
        remainingSize := remainingSize - checkpointSize;
        if remainingSize == 0 {
          FullScope(counts, size, |checkpoints|, currentScope);
          checkpoints := checkpoints + [CheckPoint(currentScope.Keys, currentScope)];
          currentScope := map[];
          remainingSize := size;
          StartNext(|checkpoints| - 1, size);
          from := from + size;
          EmptyScope(counts, from);
        }
      }
      assert First(counts, currentChunk + 1) == first + counts[currentChunk].instCount;
    }
    CountScopes(Total(counts), size, |checkpoints|, from);
    if currentScope != map[] {
      EmptyScope(counts, from);
      LastScope(counts, size, |checkpoints|, currentScope);
      checkpoints := checkpoints + [CheckPoint(currentScope.Keys, currentScope)];
    } else if from < Total(counts) {
      ScopeNonEmpty(counts, from);
    }
  }

  lemma StartZero(size: nat)
    ensures Start(0, size) == 0
  {
  }

  lemma LastScope(counts: seq<InstCount>, size: nat, k: nat, scope: Scope)
    requires Start(k, size) <= Total(counts) <= Start(k, size) + size
    requires scope == ScopeOf(counts, Start(k, size), Total(counts))
    ensures PlannedAt(counts, size, CheckPoint(scope.Keys, scope), k)
  {
    hide ScopeOf, Start;
  }

  lemma CountScopes(total: nat, size: nat, q: nat, from: nat)
    requires size > 0 && from == Start(q, size) && from <= total < from + size
    ensures NumBlocks(total, size) == if from == total then q else q + 1
  {
    if total > 0 {
      if from == total {
        assert q > 0;
        StartNext(q - 1, size);
        DivUnique(total - 1, size, q - 1);
      } else {
        DivUnique(total - 1, size, q);
      }
    }
  }

  // ---- what the scopes are good for ----

  /** Instruction number off of chunk c is collected in the scope. */
  predicate Covers(scope: Scope, c: nat, off: nat) {
    c in scope && scope[c].1 <= off < scope[c].1 + scope[c].0
  }

  lemma CoversWhen(counts: seq<InstCount>, from: nat, to: nat, c: nat, off: nat)
    requires c < |counts| && off < counts[c].instCount
    ensures Covers(ScopeOf(counts, from, to), c, off) <==> from <= First(counts, c) + off < to
  {
    if Touches(counts, from, to, c) {
      assert c in ScopeOf(counts, from, to);
    }
  }

  /** Partition: every instruction of every chunk is in exactly one scope, the one that holds its
      position. */
  lemma InExactlyOneScope(counts: seq<InstCount>, size: nat, c: nat, off: nat, k: nat)
    requires size > 0 && c < |counts| && off < counts[c].instCount
    ensures Covers(PlannedScope(counts, size, k), c, off) <==> k == (First(counts, c) + off) / size
    ensures (First(counts, c) + off) / size < NumBlocks(Total(counts), size)
  {
    hide ScopeOf;
    var pos := First(counts, c) + off;
    FirstMonotone(counts, c + 1, |counts|);
    CoversWhen(counts, Start(k, size), Min(Start(k, size) + size, Total(counts)), c, off);
    DivBounds(pos, size);
    if Start(k, size) <= pos < Start(k, size) + size {
      DivUnique(pos, size, k);
    }
    CeilBounds(Total(counts), size);
    if NumBlocks(Total(counts), size) <= pos / size {
      MulLess(NumBlocks(Total(counts), size), pos / size, size);
    }
  }

  lemma MulLess(x: nat, y: nat, k: nat)
    requires x <= y
    ensures x * k <= y * k
  {
    if x < y { MulLe(x, y, k); }
  }

  /** How many instructions of the first n chunks a scope collects. */
  function Collected(scope: Scope, n: nat): nat {
    if n == 0 then 0 else Collected(scope, n - 1) + (if n - 1 in scope then scope[n - 1].0 else 0)
  }

  lemma OverlapNext(from: nat, to: nat, p: nat, q: nat)
    requires from <= to && p <= q
    ensures Max(0, Min(to, p) - from) + (if Max(from, p) < Min(to, q) then Min(to, q) - Max(from, p) else 0) ==
            Max(0, Min(to, q) - from)
  {
  }

  lemma {:induction false} CollectedIs(counts: seq<InstCount>, from: nat, to: nat, n: nat)
    requires n <= |counts| && from <= to
    ensures Collected(ScopeOf(counts, from, to), n) == Max(0, Min(to, First(counts, n)) - from)
  {
    if n > 0 {
      CollectedIs(counts, from, to, n - 1);
      ScopeAt(counts, from, to, n - 1);
      OverlapNext(from, to, First(counts, n - 1), First(counts, n));
      hide ScopeOf, Max, Min;
    }
  }

  /** Conservation: every scope but the last collects `size` instructions, and the last the rest. */
  lemma ScopeSize(counts: seq<InstCount>, size: nat, k: nat)
    requires size > 0 && k < NumBlocks(Total(counts), size)
    ensures Collected(PlannedScope(counts, size, k), |counts|) == Min(size, Total(counts) - Start(k, size))
    ensures k + 1 < NumBlocks(Total(counts), size) ==> Collected(PlannedScope(counts, size, k), |counts|) == size
  {
    hide ScopeOf, Collected;
    var total := Total(counts);
    CeilBounds(total, size);
    StartNext(k, size);
    MulLess(k + 1, NumBlocks(total, size), size);
    CollectedIs(counts, Start(k, size), Min(Start(k, size) + size, total), |counts|);
    if k + 1 < NumBlocks(total, size) {
      StartNext(k + 1, size);
      MulLess(k + 2, NumBlocks(total, size), size);
    }
  }
}
