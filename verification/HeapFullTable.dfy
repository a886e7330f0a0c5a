/** A run after which the table of free chunks is full: nothing can be freed any more. */
module HeapFullTable {
  import opened Options
  import opened HeapSpec
  import opened HeapProofs
  import opened HeapTheorems
  import opened HeapRestore

  // ----- the state: holes of 1, 2, .. bytes, each followed by a live chunk of the same size

  /** Where the hole of n + 1 bytes is. */
  function HoleAt(n: nat): nat {
    if n == 0 then 0 else HoleAt(n - 1) + 2 * n
  }

  function Holes(n: nat): (s: seq<Chunk>)
    ensures |s| == n
  {
    if n == 0 then [] else Holes(n - 1) + [Chunk(HoleAt(n - 1), n)]
  }

  function Between(n: nat): (s: seq<Chunk>)
    ensures |s| == n
  {
    if n == 0 then [] else Between(n - 1) + [Chunk(HoleAt(n - 1) + n, n)]
  }

  function BytesLeft(n: nat): int {
    if n == 0 then ALLOC_CAP else BytesLeft(n - 1) - n
  }

  ghost predicate IsSpaced(h: Heap, n: nat) {
    && HoleAt(n) < ALLOC_CAP && h.freeBytes == BytesLeft(n)
    && h.live == Between(n) && h.free == Holes(n) + [Chunk(HoleAt(n), ALLOC_CAP - HoleAt(n))]
  }

  /** Holes and live chunks lie below the rest, the holes too small for the next request. */
  lemma {:induction false} Below(n: nat, i: nat)
    requires i < n
    ensures Holes(n)[i].End() < HoleAt(n) && Between(n)[i].End() <= HoleAt(n) && Holes(n)[i].size <= n
  {
    if i < n - 1 {
      Below(n - 1, i);
    }
  }

  lemma {:induction false} Room(n: nat, m: nat)
    requires n <= m
    ensures HoleAt(m) == m * (m + 1) && HoleAt(n) <= HoleAt(m) && BytesLeft(n) >= ALLOC_CAP - HoleAt(n)
  {
    if n < m {
      Room(n, m - 1);
    } else if n > 0 {
      Room(n - 1, n - 1);
    }
  }

  // ----- the two kinds of calls

  /** A request that only the last free chunk can meet. */
  lemma AllocFromLast(h: Heap, hs: seq<Chunk>, o: nat, z: nat, k: nat)
    requires h.freeBytes == TotalSize(h.free) && h.free == hs + [Chunk(o, z)] && 0 < k < z
    requires |h.live| < CHUNKS_CAP && h.freeBytes >= k && forall i :: 0 <= i < |hs| ==> hs[i].size < k
    requires forall i :: 0 <= i < |h.live| ==> h.live[i].ptr < o
    ensures Alloc(h, k) == (Heap(h.live + [Chunk(o, k)], hs + [Chunk(o + k, z - k)], h.freeBytes - k), Some(o))
  {
    hide TotalSize;
    var n := |hs|;
    assert h.free[n] == Chunk(o, z);
    assert forall i :: 0 <= i < n ==> h.free[i] == hs[i];
    assert FirstFit(h.free, k) == Some(n);
    assert h.free[n := Chunk(o + k, z - k)] == hs + [Chunk(o + k, z - k)];
  }

  /** Freeing a chunk that lies before the last free one and behind the others, touching neither. */
  lemma FreeBeforeLast(h: Heap, live: seq<Chunk>, c: Chunk, d: Chunk, hs: seq<Chunk>, last: Chunk)
    requires h.live == live + [c, d] && h.free == hs + [last] && |h.free| < CHUNKS_CAP
    requires forall i :: 0 <= i < |live| ==> live[i].ptr < c.ptr
    requires forall i :: 0 <= i < |hs| ==> hs[i].End() < c.ptr
    requires c.ptr < d.ptr && c.End() < last.ptr
    ensures Free(h, Some(c.ptr)) == (Heap(live + [d], hs + [c] + [last], h.freeBytes + c.size), Freed)
  {
    hide LowerBound, Insert, MergeRun;
    var k, n := |live|, |hs|;
    assert forall i :: 0 <= i < k ==> h.live[i] == live[i];
    BoundIs(h.live, c.ptr, k);
    assert h.live[..k] + h.live[k + 1..] == live + [d];
    assert forall i :: 0 <= i < n ==> h.free[i] == hs[i];
    BoundIs(h.free, c.ptr, n);
    InsertIs(h.free, c);
    var s := hs + [c] + [last];
    assert h.free[..n] + [c] + h.free[n..] == s;
    assert s[n] == c && s[n + 1] == last && (n > 0 ==> s[n - 1] == hs[n - 1]);
    MergeNothing(s, n);
  }

  lemma MergeNothing(s: seq<Chunk>, left: nat)
    requires left + 1 < |s| && !Touching(s, left)
    ensures MergeRun(s, left) == s
  {
  }

  // ----- the run

  /** One more hole: two requests for n bytes, and the first of the two chunks freed again. */
  function Calls(n: nat): seq<Call> {
    if n == 0 then [] else Calls(n - 1) + [AllocCall(n), AllocCall(n), FreeCall(Some(HoleAt(n - 1)))]
  }

  lemma ThreeCalls(h: Heap, n: nat)
    requires Inv(h) && IsSpaced(h, n) && n < CHUNKS_CAP - 1
    ensures var h1 := Alloc(h, n + 1).0; Inv(h1)
    ensures var h2 := Alloc(Alloc(h, n + 1).0, n + 1).0;
      Inv(h2) && IsSpaced(Free(h2, Some(HoleAt(n))).0, n + 1)
  {
    hide Inv, Holes, Between, HoleAt, BytesLeft, Alloc, Free, TotalSize;
    var o, k, z := HoleAt(n), n + 1, ALLOC_CAP - HoleAt(n);
    RoomForTwo(n);
    CountsBytes(h);
    forall i | 0 <= i < n ensures Holes(n)[i].End() < o && Between(n)[i].ptr < o && Holes(n)[i].size < k {
      BelowNext(n, i);
    }
    AllocFromLast(h, Holes(n), o, z, k);
    AllocKeepsInv(h, k);
    var h1 := Alloc(h, k).0;
    CountsBytes(h1);
    AllocFromLast(h1, Holes(n), o + k, z - k, k);
    AllocKeepsInv(h1, k);
    var h2 := Alloc(h1, k).0;
    assert h2.live == Between(n) + [Chunk(o, k), Chunk(o + k, k)];
    FreeBeforeLast(h2, Between(n), Chunk(o, k), Chunk(o + k, k), Holes(n), Chunk(o + k + k, z - k - k));
    OneMore(n);
  }

  lemma BelowNext(n: nat, i: nat)
    requires i < n
    ensures Holes(n)[i].End() < HoleAt(n) && Between(n)[i].ptr < HoleAt(n) && Holes(n)[i].size < n + 1
  {
    Below(n, i);
    assert Between(n)[i].size > 0 by { Positive(n, i); }
  }

  lemma {:induction false} Positive(n: nat, i: nat)
    requires i < n
    ensures Between(n)[i].size > 0
  {
    if i < n - 1 {
      Positive(n - 1, i);
    }
  }

  lemma OneMore(n: nat)
    ensures Holes(n + 1) == Holes(n) + [Chunk(HoleAt(n), n + 1)] && HoleAt(n + 1) == HoleAt(n) + (n + 1) + (n + 1)
    ensures Between(n + 1) == Between(n) + [Chunk(HoleAt(n) + (n + 1), n + 1)] && BytesLeft(n + 1) == BytesLeft(n) - (n + 1)
  {
  }

  lemma CountsBytes(h: Heap)
    requires Inv(h)
    ensures h.freeBytes == TotalSize(h.free)
  {
  }

  lemma RoomForTwo(n: nat)
    requires n < CHUNKS_CAP - 1
    ensures HoleAt(n) + 2 * (n + 1) < ALLOC_CAP && BytesLeft(n) >= 2 * (n + 1)
  {
    Room(n, CHUNKS_CAP - 1);
    assert (CHUNKS_CAP - 1) * CHUNKS_CAP + 2 * CHUNKS_CAP < ALLOC_CAP;
  }

  lemma {:induction false} RunConcat(h: Heap, a: seq<Call>, b: seq<Call>)
    requires Inv(h)
    ensures Run(h, a + b) == Run(Run(h, a), b)
    decreases |a|
  {
    hide Inv, Step;
    if a == [] {
      assert a + b == b;
    } else {
      assert (a + b)[0] == a[0] && (a + b)[1..] == a[1..] + b;
      HeapTheorems.StepKeepsInv(h, a[0]);
      RunConcat(Step(h, a[0]), a[1..], b);
    }
  }

  lemma RunThree(h: Heap, a: Call, b: Call, c: Call)
    requires Inv(h) && Inv(Step(h, a)) && Inv(Step(Step(h, a), b))
    ensures Run(h, [a, b, c]) == Step(Step(Step(h, a), b), c)
  {
    hide Inv, Step;
    assert [a, b, c][1..] == [b, c] && [b, c][1..] == [c] && [c][1..] == [];
    HeapTheorems.StepKeepsInv(Step(Step(h, a), b), c);
    assert Run(Step(Step(h, a), b), [c]) == Run(Step(Step(Step(h, a), b), c), []);
  }

  lemma {:induction false} RunSpaces(n: nat)
    requires n < CHUNKS_CAP
    ensures Inv(INITIAL) && IsSpaced(Run(INITIAL, Calls(n)), n)
  {
    hide Inv, IsSpaced, Run, Alloc, Free, Calls;
    InitialInv();
    if n == 0 {
      NoCalls();
    } else {
      RunSpaces(n - 1);
      var h := Run(INITIAL, Calls(n - 1));
      ThreeCalls(h, n - 1);
      RunThree(h, AllocCall(n), AllocCall(n), FreeCall(Some(HoleAt(n - 1))));
      RunConcat(INITIAL, Calls(n - 1), [AllocCall(n), AllocCall(n), FreeCall(Some(HoleAt(n - 1)))]);
      CallsMore(n);
    }
  }

  lemma NoCalls()
    requires Inv(INITIAL)
    ensures IsSpaced(Run(INITIAL, Calls(0)), 0)
  {
    assert Run(INITIAL, []) == INITIAL;
    assert [] + [Chunk(0, ALLOC_CAP)] == INITIAL.free;
  }

  lemma CallsMore(n: nat)
    requires n > 0
    ensures Calls(n) == Calls(n - 1) + [AllocCall(n), AllocCall(n), FreeCall(Some(HoleAt(n - 1)))]
  {
  }

  /** From the initial heap the calls for 1023 holes lead to 1023 live and 1024 free chunks, and no list
      of frees restores the heap from there, or changes it at all. */
  lemma FullTableIsReached(ps: seq<nat>)
    ensures Inv(INITIAL)
    ensures var h := Run(INITIAL, Calls(CHUNKS_CAP - 1));
      |h.live| == CHUNKS_CAP - 1 && |h.free| == CHUNKS_CAP && FreeEach(h, ps) == h != INITIAL
  {
    RunSpaces(CHUNKS_CAP - 1);
    var h := Run(INITIAL, Calls(CHUNKS_CAP - 1));
    hide Run, Calls, Holes, Between, HoleAt, BytesLeft, Inv;
    FullTableStays(h, ps);
  }
}
