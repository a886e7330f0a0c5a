/** Freeing all live chunks, in any order: when that restores the initial heap. */
module HeapRestore {
  import opened Options
  import opened HeapSpec
  import opened HeapProofs
  import opened HeapTheorems

  ghost function FreeEach(h: Heap, ps: seq<nat>): Heap
    decreases |ps|
  {
    if ps == [] then h else FreeEach(Free(h, Some(ps[0])).0, ps[1..])
  }

  ghost predicate LivePointers(h: Heap, ps: seq<nat>) {
    && |ps| == |h.live|
    && (forall i, j :: 0 <= i < j < |ps| ==> ps[i] != ps[j])
    && (forall i :: 0 <= i < |ps| ==> IsLive(h, ps[i]))
  }

  // ----- one chunk fewer

  lemma OneFewer(h: Heap, ps: seq<nat>)
    requires Inv(h) && LivePointers(h, ps) && |h.free| < CHUNKS_CAP && ps != []
    ensures var h' := Free(h, Some(ps[0])).0; Inv(h') && |h'.live| == |h.live| - 1 && LivePointers(h', ps[1..])
  {
    hide Inv, Free;
    FreeKeepsInv(h, Some(ps[0]));
    assert IsLive(h, ps[0]);
    var c :| c in h.live && c.ptr == ps[0];
    FreeTakes(h, c);
    var h' := Free(h, Some(ps[0])).0;
    WithoutOne(h.live, h'.live, c);
    forall i | 1 <= i < |ps| ensures IsLive(h', ps[i]) {
      assert IsLive(h, ps[i]) && ps[0] != ps[i];
      var d :| d in h.live && d.ptr == ps[i];
    }
    PointersLeft(h, h', ps);
  }

  lemma WithoutOne(s: seq<Chunk>, t: seq<Chunk>, c: Chunk)
    requires c in s && multiset(t) == multiset(s) - multiset{c}
    ensures |t| == |s| - 1 && forall d :: d in s && d != c ==> d in t
  {
    assert c in multiset(s);
    assert |multiset(t)| == |multiset(s)| - 1;
    assert |t| == |multiset(t)| && |s| == |multiset(s)|;
    forall d | d in s && d != c ensures d in t {
      assert d in multiset(s);
      assert d in multiset(t);
    }
  }

  lemma PointersLeft(h: Heap, h': Heap, ps: seq<nat>)
    requires LivePointers(h, ps) && ps != [] && |h'.live| == |h.live| - 1
    requires forall i :: 1 <= i < |ps| ==> IsLive(h', ps[i])
    ensures LivePointers(h', ps[1..])
  {
    var qs := ps[1..];
    assert forall i :: 0 <= i < |qs| ==> qs[i] == ps[i + 1];
  }

  // ----- when the chunk freed touches a free one

  ghost predicate Touches(free: seq<Chunk>, c: Chunk) {
    exists i :: 0 <= i < |free| && (free[i].End() == c.ptr || c.End() == free[i].ptr)
  }

  /** The neighbours of c in the sorted list are the only chunks it can touch. */
  lemma TouchingNeighbours(free: seq<Chunk>, c: Chunk)
    requires Ordered(free) && Coalesced(free) && Apart(free, c) && c.size > 0
    ensures var k := LowerBound(free, c.ptr);
      Touches(free, c) <==> (k > 0 && free[k - 1].End() == c.ptr) || (k < |free| && c.End() == free[k].ptr)
  {
    hide LowerBound;
    var k := LowerBound(free, c.ptr);
    assert k < |free| ==> c.End() <= free[k].ptr;
  }

  lemma MergeRunShorter(s: seq<Chunk>, left: nat)
    requires left < |s|
    ensures |MergeRun(s, left)| <= |s|
    ensures |MergeRun(s, left)| < |s| <==> left + 1 < |s| && Touching(s, left)
    decreases |s|
  {
  }

  /** The free list grows by the chunk exactly when it touches none. */
  lemma JoinGrowsIff(free: seq<Chunk>, c: Chunk)
    requires Ordered(free) && Coalesced(free) && Apart(free, c) && c.size > 0
    ensures |Join(free, c)| <= |free| <==> Touches(free, c)
    ensures |Join(free, c)| <= |free| + 1
  {
    hide Insert, LowerBound, MergeRun, Ordered, Coalesced, Apart, Touches;
    TouchingNeighbours(free, c);
    var s, pos := Insert(free, c), LowerBound(free, c.ptr);
    InsertAt(free, c, pos);
    if pos > 0 {
      InsertAt(free, c, pos - 1);
    }
    if pos < |free| {
      InsertAt(free, c, pos + 1);
    }
    MergeRunShorter(s, if pos > 0 && Touching(s, pos - 1) then pos - 1 else pos);
  }

  /** Some live chunk starts at p and touches a free one. */
  ghost predicate FreesNext(h: Heap, p: nat) {
    exists c :: c in h.live && c.ptr == p && Touches(h.free, c)
  }

  lemma FreeCount(h: Heap, p: nat)
    requires Inv(h) && |h.free| < CHUNKS_CAP && IsLive(h, p)
    ensures var h' := Free(h, Some(p)).0;
      |h'.free| <= |h.free| + 1 && (|h'.free| <= |h.free| <==> FreesNext(h, p))
  {
    hide Inv, Touches, Join, LowerBound;
    var c :| c in h.live && c.ptr == p;
    LiveIsFound(h, c);
    ApartFromFree(h, LowerBound(h.live, p));
    JoinGrowsIff(h.free, c);
    forall d | d in h.live && d.ptr == p ensures d == c {
      LiveIsFound(h, d);
    }
  }

  lemma ApartFromFree(h: Heap, k: nat)
    requires Inv(h) && k < |h.live|
    ensures Ordered(h.free) && Coalesced(h.free) && Apart(h.free, h.live[k]) && h.live[k].size > 0
  {
    LiveBytesAreNotFree(h, k);
  }

  // ----- freeing everything

  /** What a caller can check before the first free. */
  ghost predicate CanRestore(h: Heap, ps: seq<nat>) {
    && |h.free| < CHUNKS_CAP
    && (|h.live| == CHUNKS_CAP && |h.free| == CHUNKS_CAP - 1 && ps != [] ==> FreesNext(h, ps[0]))
  }

  /** With a full free table nothing can be freed any more. */
  lemma {:induction false} FullTableStays(h: Heap, ps: seq<nat>)
    requires |h.free| == CHUNKS_CAP
    ensures FreeEach(h, ps) == h
    decreases |ps|
  {
    if ps != [] {
      assert Free(h, Some(ps[0])).0 == h;
      FullTableStays(h, ps[1..]);
    }
  }

  lemma {:induction false} FewLiveRestore(h: Heap, ps: seq<nat>)
    requires Inv(h) && LivePointers(h, ps) && |h.live| < CHUNKS_CAP - 1
    ensures FreeEach(h, ps) == INITIAL
    decreases |ps|
  {
    hide Inv, LivePointers, Free;
    if ps == [] {
      NoneLeft(h, ps);
    } else {
      FreeListIsShort(h);
      OneFewer(h, ps);
      FewLiveRestore(Free(h, Some(ps[0])).0, ps[1..]);
    }
  }

  lemma NoneLeft(h: Heap, ps: seq<nat>)
    requires Inv(h) && LivePointers(h, ps) && ps == []
    ensures h == INITIAL
  {
    NothingLiveIsInitial(h);
  }

  lemma NotInitial(h: Heap)
    requires |h.free| == CHUNKS_CAP
    ensures h != INITIAL
  {
  }

  lemma LastButOne(h: Heap, ps: seq<nat>)
    requires Inv(h) && LivePointers(h, ps) && |h.live| <= CHUNKS_CAP - 1
    ensures FreeEach(h, ps) == INITIAL <==> |h.free| < CHUNKS_CAP
  {
    hide Inv, LivePointers, Free;
    if |h.free| >= CHUNKS_CAP {
      FreeIsBounded(h);
      FullTableStays(h, ps);
      NotInitial(h);
    } else if ps == [] {
      NoneLeft(h, ps);
    } else {
      OneFewer(h, ps);
      FewLiveRestore(Free(h, Some(ps[0])).0, ps[1..]);
    }
  }

  lemma FreeIsBounded(h: Heap)
    requires Inv(h)
    ensures |h.free| <= CHUNKS_CAP && |h.live| <= CHUNKS_CAP
  {
  }

  lemma FirstIsLive(h: Heap, ps: seq<nat>)
    requires LivePointers(h, ps)
    ensures |ps| == |h.live| && (ps != [] ==> IsLive(h, ps[0]))
  {
  }

  /** Freeing all live chunks, in any order, restores the single full-heap free chunk exactly when the
      table of free chunks has room at the start and, with both tables as full as that allows, the
      first chunk freed touches a free one. */
  lemma FreeingAllRestoresHeapIff(h: Heap, ps: seq<nat>)
    requires Inv(h) && LivePointers(h, ps)
    ensures FreeEach(h, ps) == INITIAL <==> CanRestore(h, ps)
  {
    hide Inv, LivePointers, Free, FreesNext;
    FreeIsBounded(h);
    FirstIsLive(h, ps);
    if |h.live| < CHUNKS_CAP || |h.free| == CHUNKS_CAP {
      if |h.free| == CHUNKS_CAP {
        FullTableStays(h, ps);
        NotInitial(h);
      } else {
        LastButOne(h, ps);
      }
    } else {
      OneFewer(h, ps);
      FreeCount(h, ps[0]);
      LastButOne(Free(h, Some(ps[0])).0, ps[1..]);
    }
  }
}
