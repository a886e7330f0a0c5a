/** The allocator's promises: the partition over every run, full coalescing, what an
    allocation finds, and what a free undoes. */
module HeapTheorems {
  import opened Options
  import opened HeapSpec
  import opened HeapProofs

  // ----- every run

  datatype Call = AllocCall(size: nat) | FreeCall(p: Option<nat>)

  function Step(h: Heap, c: Call): Heap
    requires Inv(h)
  {
    match c
    case AllocCall(size) => Alloc(h, size).0
    case FreeCall(p) => Free(h, p).0
  }

  ghost function Run(h: Heap, calls: seq<Call>): (r: Heap)
    requires Inv(h)
    ensures Inv(r)
    decreases |calls|
  {
    if calls == [] then h
    else
      StepKeepsInv(h, calls[0]);
      Run(Step(h, calls[0]), calls[1..])
  }

  lemma StepKeepsInv(h: Heap, c: Call)
    requires Inv(h)
    ensures Inv(Step(h, c))
  {
    match c
    case AllocCall(size) => AllocKeepsInv(h, size);
    case FreeCall(p) => FreeKeepsInv(h, p);
  }

  /** From the initial heap, whatever the calls: live and free chunks tile the heap. */
  lemma EveryRunTiles(calls: seq<Call>)
    ensures Inv(INITIAL) && Inv(Run(INITIAL, calls))
  {
    InitialInv();
  }

  // ----- full coalescing

  lemma FreeBetweenLive(h: Heap, i: nat)
    requires Inv(h) && i < |h.free|
    ensures LowerBound(h.live, h.free[i].ptr) >= i
  {
    hide LowerBound, TotalSize, Tiles, Coalesced, Within;
    if i > 0 {
      FreeBetweenLive(h, i - 1);
      var l := LiveBetween(h, i);
    }
  }

  /** Between two free chunks there is a live one. */
  lemma LiveBetween(h: Heap, i: nat) returns (l: nat)
    requires Inv(h) && 0 < i < |h.free|
    ensures l < |h.live| && h.free[i - 1].End() <= h.live[l].ptr < h.free[i].ptr
  {
    hide LowerBound, TotalSize;
    EndIsNotFree(h, i - 1);
    var e := h.free[i - 1].End();
    assert e < h.free[i].ptr && h.free[i].End() <= ALLOC_CAP;
    l := CoveringChunk(h.live, e);
    LiveBytesAreNotFree(h, l);
  }

  lemma CoveringChunk(s: seq<Chunk>, a: int) returns (i: nat)
    requires Covers(s, a)
    ensures i < |s| && s[i].ptr <= a < s[i].End()
  {
    i :| i < |s| && s[i].ptr <= a < s[i].End();
  }

  lemma EndIsNotFree(h: Heap, i: nat)
    requires Inv(h) && i < |h.free|
    ensures !Covers(h.free, h.free[i].End())
  {
  }

  /** The free list has at most one entry more than the live list. */
  lemma FreeListIsShort(h: Heap)
    requires Inv(h)
    ensures |h.free| <= |h.live| + 1
  {
    if |h.free| > 0 {
      FreeBetweenLive(h, |h.free| - 1);
    }
  }

  /** The fragmentation error needs at least 1023 live chunks. */
  lemma FragmentationNeedsManyChunks(h: Heap, p: Option<nat>)
    requires Inv(h) && Free(h, p).1.Fragmentation?
    ensures |h.live| >= CHUNKS_CAP - 1
  {
    FreeListIsShort(h);
  }

  // ----- the free list is determined by the live chunks

  ghost predicate SameCoverage(s: seq<Chunk>, t: seq<Chunk>) {
    forall a :: Covers(s, a) <==> Covers(t, a)
  }

  lemma FirstChunks(s: seq<Chunk>, t: seq<Chunk>)
    requires Ordered(s) && Coalesced(s) && Ordered(t) && Coalesced(t) && SameCoverage(s, t)
    ensures (s == [] <==> t == []) && (s != [] ==> s[0] == t[0])
  {
    if s != [] {
      assert Covers(s, s[0].ptr);
      assert Covers(t, s[0].ptr);
    }
    if t != [] {
      assert Covers(t, t[0].ptr);
      assert Covers(s, t[0].ptr);
    }
    if s != [] && t != [] {
      EndsAt(s);
      EndsAt(t);
      assert s[0].ptr == t[0].ptr;
      var x, y := s[0].End(), t[0].End();
      assert x < y ==> Covers(t, x);
      assert y < x ==> Covers(s, y);
    }
  }

  lemma EndsAt(s: seq<Chunk>)
    requires Ordered(s) && Coalesced(s) && s != []
    ensures !Covers(s, s[0].End())
  {
  }

  lemma TailCoverage(s: seq<Chunk>, a: int)
    requires Ordered(s) && s != []
    ensures Covers(s[1..], a) <==> Covers(s, a) && !(s[0].ptr <= a < s[0].End())
  {
    assert s == [s[0]] + s[1..];
    CoversConcat([s[0]], s[1..], a);
    CoversOne(s[0], a);
  }

  /** Two coalesced lists with the same bytes are the same list. */
  lemma {:induction false} SameBytesSameList(s: seq<Chunk>, t: seq<Chunk>)
    requires Ordered(s) && Coalesced(s) && Ordered(t) && Coalesced(t) && SameCoverage(s, t)
    ensures s == t
  {
    FirstChunks(s, t);
    if s != [] {
      forall a ensures Covers(s[1..], a) <==> Covers(t[1..], a) {
        TailCoverage(s, a);
        TailCoverage(t, a);
      }
      SameBytesSameList(s[1..], t[1..]);
      assert s == [s[0]] + s[1..] && t == [t[0]] + t[1..];
    }
  }

  /** The free list is a function of the live chunks: no history shows in it. */
  lemma FreeListIsCanonical(h: Heap, h': Heap)
    requires Inv(h) && Inv(h') && h.live == h'.live
    ensures h == h'
  {
    forall a ensures Covers(h.free, a) <==> Covers(h'.free, a) {
      OutsideIsNotCovered(h.free, a);
      OutsideIsNotCovered(h'.free, a);
    }
    SameBytesSameList(h.free, h'.free);
  }

  lemma OutsideIsNotCovered(s: seq<Chunk>, a: int)
    requires Within(s)
    ensures Covers(s, a) ==> 0 <= a < ALLOC_CAP
  {
  }

  // ----- what an allocation finds

  /** size bytes from p on lie in the heap and belong to no live chunk. */
  ghost predicate Fits(h: Heap, p: nat, size: nat) {
    p + size <= ALLOC_CAP && forall a :: p <= a < p + size ==> !Covers(h.live, a)
  }

  ghost predicate LowestFit(h: Heap, p: nat, size: nat) {
    Fits(h, p, size) && forall q: nat :: q < p ==> !Fits(h, q, size)
  }

  /** Free bytes in a row all lie in one free chunk. */
  lemma FitsInOneChunk(h: Heap, p: nat, size: nat) returns (i: nat)
    requires Inv(h) && Fits(h, p, size) && size > 0
    ensures i < |h.free| && h.free[i].ptr <= p && p + size <= h.free[i].End()
  {
    assert Covers(h.free, p);
    i :| 0 <= i < |h.free| && h.free[i].ptr <= p < h.free[i].End();
    EndIsNotFree(h, i);
    var e := h.free[i].End();
    assert e < p + size ==> !Covers(h.live, e);
  }

  lemma FoundIsLowest(h: Heap, size: nat)
    requires Inv(h) && Alloc(h, size).1.Some?
    ensures LowestFit(h, Alloc(h, size).1.value, size)
  {
    var i := FirstFit(h.free, size).value;
    var p := h.free[i].ptr;
    FreeBytesAreNotLive(h, i);
    forall q: nat | Fits(h, q, size) ensures q >= p {
      var j := FitsInOneChunk(h, q, size);
      assert j >= i;
    }
  }

  lemma SizeBelowTotal(s: seq<Chunk>, i: nat)
    requires i < |s|
    ensures s[i].size <= TotalSize(s)
  {
    if i < |s| - 1 {
      SizeBelowTotal(s[..|s| - 1], i);
    }
  }

  /** A request is met exactly when the chunk table has room, it asks for something and that many
      bytes are free in a row; what it gets is the lowest place where they are. */
  lemma AllocFindsLowestFit(h: Heap, size: nat, p: nat)
    requires Inv(h)
    ensures Alloc(h, size).1 == Some(p) <==> |h.live| < CHUNKS_CAP && size > 0 && LowestFit(h, p, size)
  {
    if Alloc(h, size).1.Some? {
      FoundIsLowest(h, size);
    }
    if |h.live| < CHUNKS_CAP && size > 0 && LowestFit(h, p, size) {
      var i := FitsInOneChunk(h, p, size);
      SizeBelowTotal(h.free, i);
      assert Alloc(h, size).1.Some?;
    }
  }

  /** An allocation adds its chunk and leaves every other live chunk as it was. */
  lemma AllocAddsOneChunk(h: Heap, size: nat)
    requires Inv(h) && Alloc(h, size).1.Some?
    ensures var (h', r) := Alloc(h, size);
      multiset(h'.live) == multiset(h.live) + multiset{Chunk(r.value, size)} && Apart(h.live, Chunk(r.value, size))
  {
    hide Insert, LowerBound, TotalSize, Take;
    var (h', r) := Alloc(h, size);
    var c := Chunk(r.value, size);
    InsertIs(h.live, c);
    var k := LowerBound(h.live, c.ptr);
    assert h.live == h.live[..k] + h.live[k..];
    FreeBytesAreNotLive(h, FirstFit(h.free, size).value);
    UncoveredIsApart(h.live, c);
  }

  // ----- calls that are refused

  /** An allocation that hands out nothing leaves the heap as it was. */
  lemma RefusedAllocChangesNothing(h: Heap, size: nat)
    requires Inv(h)
    ensures Alloc(h, size).1.None? ==> Alloc(h, size).0 == h
  {
  }

  lemma IsLiveIff(h: Heap, p: nat)
    requires Inv(h)
    ensures var k := LowerBound(h.live, p); IsLive(h, p) <==> k < |h.live| && h.live[k].ptr == p
  {
    hide LowerBound, Inv;
    var k := LowerBound(h.live, p);
    if IsLive(h, p) {
      var c :| c in h.live && c.ptr == p;
      LiveIsFound(h, c);
    }
    assert k < |h.live| ==> h.live[k] in h.live;
  }

  /** The outcome of a free: the null pointer, an address that is no live chunk's and a full table are
      refused, each with its own error, and then the heap is as it was; any other call frees. */
  lemma FreeOutcome(h: Heap, p: Option<nat>)
    requires Inv(h)
    ensures Free(h, p).1 == if p.None? then NullPointer else if !IsLive(h, p.value) then InvalidArgument
                            else if |h.free| == CHUNKS_CAP then Fragmentation else Freed
    ensures Free(h, p).1 != Freed ==> Free(h, p).0 == h
  {
    hide LowerBound, Inv, Join, IsLive;
    if p.Some? {
      IsLiveIff(h, p.value);
    }
  }

  // ----- what a free undoes

  /** A live chunk is the one that its address finds. */
  lemma LiveIsFound(h: Heap, c: Chunk)
    requires Inv(h) && c in h.live
    ensures LowerBound(h.live, c.ptr) < |h.live| && h.live[LowerBound(h.live, c.ptr)] == c
  {
    hide TotalSize, Tiles, LowerBound;
    var i :| 0 <= i < |h.live| && h.live[i] == c;
    BoundIs(h.live, c.ptr, i);
  }

  lemma FreeTakes(h: Heap, c: Chunk)
    requires Inv(h) && |h.free| < CHUNKS_CAP && c in h.live
    ensures Free(h, Some(c.ptr)).1.Freed?
    ensures multiset(Free(h, Some(c.ptr)).0.live) == multiset(h.live) - multiset{c}
  {
    hide Join, Inv, LowerBound;
    LiveIsFound(h, c);
    var k := LowerBound(h.live, c.ptr);
    SplitAt(h.live, k);
    assert multiset(h.live[..k] + [c] + h.live[k + 1..]) - multiset{c} == multiset(h.live[..k] + h.live[k + 1..]);
  }

  ghost predicate IsLive(h: Heap, p: nat) {
    exists c :: c in h.live && c.ptr == p
  }

  /** Freeing succeeds exactly on the addresses of live chunks (room in the free table provided),
      and then removes that chunk and no other. */
  lemma FreeRemovesOneChunk(h: Heap, p: nat)
    requires Inv(h) && |h.free| < CHUNKS_CAP
    ensures Free(h, Some(p)).1.Freed? <==> IsLive(h, p)
    ensures forall c :: c in h.live && c.ptr == p ==>
              multiset(Free(h, Some(p)).0.live) == multiset(h.live) - multiset{c}
  {
    forall c | c in h.live && c.ptr == p
      ensures Free(h, Some(p)).1.Freed? && multiset(Free(h, Some(p)).0.live) == multiset(h.live) - multiset{c}
    {
      FreeTakes(h, c);
    }
    hide Join, Inv, LowerBound;
    var k := LowerBound(h.live, p);
    if Free(h, Some(p)).1.Freed? {
      assert h.live[k] in h.live;
    }
  }

  lemma FreeAfterAlloc(h: Heap, size: nat)
    requires Inv(h) && Alloc(h, size).1.Some? && |Alloc(h, size).0.free| < CHUNKS_CAP
    ensures Free(Alloc(h, size).0, Alloc(h, size).1) == (h, Freed)
  {
    var (h1, r) := Alloc(h, size);
    AllocKeepsInv(h, size);
    FreeKeepsInv(h1, r);
    InsertThenRemove(h.live, Chunk(r.value, size));
    FreeListIsCanonical(h, Free(h1, r).0);
  }

  /** Freeing what was just allocated restores the whole heap, unless the free table is full. */
  lemma FreeUndoesAlloc(h: Heap, size: nat)
    requires Inv(h) && Alloc(h, size).1.Some?
    ensures Free(Alloc(h, size).0, Alloc(h, size).1) == (h, Freed) <==> |Alloc(h, size).0.free| < CHUNKS_CAP
  {
    hide Join, LowerBound, FirstFit, Insert, Take, TotalSize, Tiles, Ordered, Coalesced;
    var h1 := Alloc(h, size).0;
    if |h1.free| < CHUNKS_CAP {
      FreeAfterAlloc(h, size);
    } else {
      AllocBounded(h, size);
    }
  }

  lemma AllocBounded(h: Heap, size: nat)
    requires Inv(h)
    ensures |Alloc(h, size).0.free| <= CHUNKS_CAP
  {
    AllocKeepsInv(h, size);
  }

  lemma InsertThenRemove(s: seq<Chunk>, c: Chunk)
    ensures var t, k := Insert(s, c), LowerBound(Insert(s, c), c.ptr);
      k < |t| && t[k] == c && t[..k] + t[k + 1..] == s
  {
    hide Insert, LowerBound;
    LowerBoundOfInserted(s, c);
    InsertIs(s, c);
  }

  lemma LowerBoundOfInserted(s: seq<Chunk>, c: Chunk)
    ensures LowerBound(Insert(s, c), c.ptr) == LowerBound(s, c.ptr)
  {
    InsertIs(s, c);
    var k, t := LowerBound(s, c.ptr), Insert(s, c);
    assert t[k] == c;
    assert k > 0 ==> t[k - 1] == s[k - 1];
    BoundIs(t, c.ptr, k);
  }

  /** With no live chunk the heap is the initial one. */
  lemma NothingLiveIsInitial(h: Heap)
    requires Inv(h) && h.live == []
    ensures h == INITIAL
  {
    InitialInv();
    FreeListIsCanonical(h, INITIAL);
  }
}
