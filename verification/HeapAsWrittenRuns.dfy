/** The unrepaired allocator over all its arguments and over whole runs, and inputs on which it fails. */
module HeapAsWrittenRuns {
  import opened Options
  import opened HeapSpec
  import opened HeapProofs
  import opened HeapTheorems
  import opened HeapAsWritten
  import HeapFullTable

  // ----- heap_free of any pointer

  ghost predicate FreeKeeps(s: State, p: Option<nat>)
    requires s.Shape()
  {
    var r := FreeAsWritten(s, p);
    r.Some? && r.value.0.Shape() && Inv(r.value.0.View())
  }

  /** The unrepaired bound check compares the position with the size of whatever is in the slot. */
  ghost predicate TurnedDown(s: State, p: Option<nat>)
    requires s.Shape()
  {
    p.None? ||
    var k := LowerBound(s.alloced.Entries(), p.value);
    k < CHUNKS_CAP && (k >= s.alloced.slots[k].size || s.alloced.slots[k].ptr != p.value)
  }

  /** What a caller can check beforehand, for any pointer: the call is turned down, as invalid or for
      want of room, or the pointer is that of a live chunk on which the code works. */
  ghost predicate FreeAllowed(s: State, p: Option<nat>)
    requires s.Shape()
  {
    TurnedDown(s, p) ||
    var k := LowerBound(s.alloced.Entries(), p.value);
    k < CHUNKS_CAP && (s.freed.size == CHUNKS_CAP || (k < s.alloced.size && FreeGuard(s.View(), k)))
  }

  lemma TurnedDownChangesNothing(s: State, p: Option<nat>)
    requires s.Shape() && TurnedDown(s, p)
    ensures FreeAsWritten(s, p).Some? && FreeAsWritten(s, p).value.0 == s && !FreeAsWritten(s, p).value.1.Freed?
  {
    hide LowerBound;
  }

  /** What becomes of the tables when the slot behind the live chunks is taken for a live chunk. */
  lemma DeadChunkOutcome(s: State, p: nat)
    requires s.Shape() && Inv(s.View()) && LowerBound(s.alloced.Entries(), p) == s.alloced.size < CHUNKS_CAP
    requires !TurnedDown(s, Some(p)) && s.freed.size < CHUNKS_CAP
    ensures var a, f, r := s.alloced.size, s.freed.size, FreeAsWritten(s, Some(p));
      r.Some? ==>
        && a > 0 && r.value.0.alloced == Table(s.alloced.slots, a - 1)
        && r.value.0.freed.slots == s.freed.slots[f := s.alloced.slots[a]] && r.value.0.freed.size > f
  {
    hide TryToMergeAsWritten, LowerBound, TotalSize, Tiles;
    var h, a, f := s.View(), s.alloced.size, s.freed.size;
    if a > 0 {
      var t := Table(s.freed.slots[f := s.alloced.slots[a]], f + 1);
      assert forall i :: 0 <= i < a ==> s.alloced.slots[i] == h.live[i];
      WalkStays(s.alloced.slots, a - 1);
      assert forall i :: 0 <= i < f ==> t.slots[i] == h.free[i];
      MergeOutcome(t, a);
    }
  }

  /** The last live chunk is dropped, and nothing in the free list makes up for it. */
  lemma LostChunk(h: Heap, c: Chunk, free: seq<Chunk>, bytes: nat)
    requires Inv(h) && h.live != [] && c.ptr > h.live[|h.live| - 1].ptr
    requires |free| > |h.free| && free[..|h.free|] == h.free && free[|h.free|] == c
    ensures !Inv(Heap(h.live[..|h.live| - 1], free, bytes))
  {
    hide TotalSize, Coalesced;
    var n, f := |h.live| - 1, |h.free|;
    var live, x := h.live[..n], h.live[n].ptr;
    if Ordered(free) && Within(free) {
      LiveBytesAreNotFree(h, n);
      forall i | 0 <= i < |free| ensures !(free[i].ptr <= x < free[i].End()) {
        assert i < f ==> free[i] == h.free[i];
        assert i > f ==> free[f].End() <= free[i].ptr;
      }
      assert !Covers(free, x);
      assert forall i :: 0 <= i < n ==> live[i].End() <= x;
      assert !Covers(live, x);
      assert h.live[n].End() <= ALLOC_CAP;
    }
  }

  lemma DeadChunkBreaks(s: State, p: nat)
    requires s.Shape() && Inv(s.View()) && LowerBound(s.alloced.Entries(), p) == s.alloced.size < CHUNKS_CAP
    requires !TurnedDown(s, Some(p)) && s.freed.size < CHUNKS_CAP
    ensures !FreeKeeps(s, Some(p))
  {
    hide FreeAsWritten, LowerBound, Inv;
    DeadChunkOutcome(s, p);
    var r, h, a, f := FreeAsWritten(s, Some(p)), s.View(), s.alloced.size, s.freed.size;
    if r.Some? && r.value.0.Shape() {
      var c, n := s.alloced.slots[a], r.value.0.freed.size;
      BehindLast(h.live, p);
      AppendedEntries(s.freed, c, n);
      assert r.value.0.freed == Table(s.freed.slots[f := c], n);
      assert r.value.0.alloced.Entries() == h.live[..a - 1];
      LostChunk(h, c, r.value.0.freed.Entries(), r.value.0.freeBytes);
    }
  }

  lemma BehindLast(live: seq<Chunk>, p: nat)
    requires LowerBound(live, p) == |live|
    ensures live != [] ==> live[|live| - 1].ptr < p
  {
  }

  lemma LiveCall(s: State, k: nat)
    requires s.Shape() && Inv(s.View()) && k < s.alloced.size
    ensures s.alloced.slots[k] == s.View().live[k] && LowerBound(s.alloced.Entries(), s.alloced.slots[k].ptr) == k
  {
    hide TotalSize, Tiles;
    BoundIs(s.View().live, s.View().live[k].ptr, k);
  }

  /** A call that is not turned down ends with the chunk freed or outside a table. */
  lemma AcceptedIsFreed(s: State, p: Option<nat>)
    requires s.Shape() && !TurnedDown(s, p) && s.freed.size < CHUNKS_CAP
    ensures FreeAsWritten(s, p).Some? ==> FreeAsWritten(s, p).value.1.Freed?
  {
    hide LowerBound, TryToMergeAsWritten;
  }

  lemma FullTableTurnsDown(s: State, p: Option<nat>)
    requires s.Shape() && !TurnedDown(s, p) && s.freed.size == CHUNKS_CAP
    ensures LowerBound(s.alloced.Entries(), p.value) < CHUNKS_CAP ==> FreeAsWritten(s, p) == Some((s, Fragmentation))
    ensures LowerBound(s.alloced.Entries(), p.value) == CHUNKS_CAP ==> FreeAsWritten(s, p) == None
  {
    hide LowerBound, TryToMergeAsWritten;
  }

  lemma BehindTheTable(s: State, p: Option<nat>)
    requires s.Shape() && p.Some? && LowerBound(s.alloced.Entries(), p.value) == CHUNKS_CAP
    ensures FreeAsWritten(s, p) == None && !TurnedDown(s, p)
  {
  }

  /** The unrepaired heap_free keeps the partition, whatever the pointer, exactly when the call is
      allowed: the null pointer, addresses of live chunks and all others. */
  lemma FreeAsWrittenKeepsIff(s: State, p: Option<nat>)
    requires s.Shape() && Inv(s.View())
    ensures FreeKeeps(s, p) <==> FreeAllowed(s, p)
  {
    hide Inv, FreeAsWritten, LowerBound, TurnedDown, FreeGuard;
    if TurnedDown(s, p) {
      TurnedDownChangesNothing(s, p);
    } else {
      SomePointer(s, p);
      var k := LowerBound(s.alloced.Entries(), p.value);
      if k == CHUNKS_CAP {
        BehindTheTable(s, p);
      } else if s.freed.size == CHUNKS_CAP {
        FullTableTurnsDown(s, p);
      } else if k < s.alloced.size {
        LiveCall(s, k);
        AcceptedIsFreed(s, p);
        FreeAsWrittenWorksIff(s, k);
      } else {
        DeadChunkBreaks(s, p.value);
      }
    }
  }

  lemma SomePointer(s: State, p: Option<nat>)
    requires s.Shape() && !TurnedDown(s, p)
    ensures p.Some?
    ensures var k := LowerBound(s.alloced.Entries(), p.value);
      k < CHUNKS_CAP ==> k < s.alloced.slots[k].size && s.alloced.slots[k].ptr == p.value
  {
    hide LowerBound;
  }

  // ----- whole runs

  function StepAsWritten(s: State, c: Call): Option<State>
    requires |s.alloced.slots| == CHUNKS_CAP && |s.freed.slots| == CHUNKS_CAP
    requires s.alloced.size <= CHUNKS_CAP && s.freed.size <= CHUNKS_CAP
  {
    match c
    case AllocCall(size) =>
      var r := AllocAsWritten(s, size);
      if r.None? then None else Some(r.value.0)
    case FreeCall(p) =>
      var r := FreeAsWritten(s, p);
      if r.None? then None else Some(r.value.0)
  }

  ghost predicate Kept(r: Option<State>) {
    r.Some? && r.value.Shape() && Inv(r.value.View())
  }

  /** The run stays inside the tables and keeps the partition at every step. */
  ghost predicate RunKeeps(s: State, calls: seq<Call>)
    requires s.Shape()
    decreases |calls|
  {
    calls == [] ||
    var r := StepAsWritten(s, calls[0]);
    Kept(r) && RunKeeps(r.value, calls[1..])
  }

  /** Any allocation, and the frees that are turned down or free the whole heap in one chunk. */
  ghost predicate CallAllowed(s: State, c: Call)
    requires s.Shape()
  {
    c.FreeCall? ==> TurnedDown(s, c.p) || (c.p == Some(0) && s.View().live == [Chunk(0, ALLOC_CAP)])
  }

  ghost predicate RunAllowed(s: State, calls: seq<Call>)
    requires s.Shape()
    decreases |calls|
  {
    calls == [] ||
    var r := StepAsWritten(s, calls[0]);
    CallAllowed(s, calls[0]) && (r.Some? && r.value.Shape() ==> RunAllowed(r.value, calls[1..]))
  }

  lemma AllocStep(s: State, size: nat)
    requires s.Shape() && Inv(s.View()) && s.freed.size <= 1
    ensures Kept(StepAsWritten(s, AllocCall(size))) && StepAsWritten(s, AllocCall(size)).value.freed.size <= 1
  {
    AllocAsWrittenWorksIff(s, size);
    AllocFreeCount(s.View(), size);
    hide Inv, AllocAsWritten, Alloc;
    var r := AllocAsWritten(s, size);
    assert |r.value.0.View().free| == r.value.0.freed.size;
  }

  lemma AllocFreeCount(h: Heap, size: nat)
    requires Inv(h) && |h.free| <= 1
    ensures |Alloc(h, size).0.free| <= 1 && AllocGuard(h, size)
  {
    hide TotalSize, Tiles, Ordered, Coalesced, Insert;
  }

  /** With no free chunk a single live one is the whole heap, and the other way round. */
  lemma WholeHeap(h: Heap)
    requires Inv(h)
    ensures |h.live| == 1 && h.free == [] <==> h.live == [Chunk(0, ALLOC_CAP)]
  {
    if |h.live| == 1 && h.free == [] {
      TotalOne(h.live[0]);
      assert h.live == [h.live[0]];
    }
    if h.live == [Chunk(0, ALLOC_CAP)] {
      TotalOne(h.live[0]);
      CountBelowTotal(h.free);
    }
  }

  lemma {:induction false} CountBelowTotal(s: seq<Chunk>)
    requires Ordered(s)
    ensures |s| <= TotalSize(s)
  {
    if s != [] {
      CountBelowTotal(s[..|s| - 1]);
    }
  }

  lemma WholeHeapIsFreed(s: State)
    requires s.Shape() && Inv(s.View()) && s.View().live == [Chunk(0, ALLOC_CAP)]
    ensures var r := FreeAsWritten(s, Some(0)); r.Some? && r.value.1.Freed? && r.value.0.freed.size == 1
  {
    hide FreeAsWritten, TryToMergeAsWritten, Inv;
    WholeHeap(s.View());
    LiveCall(s, 0);
    assert s.alloced.slots[0] == Chunk(0, ALLOC_CAP) && s.freed.size == 0;
    FreeAsWrittenIs(s, 0);
    MergedTable(s, 0);
  }

  lemma FreeStep(s: State, p: Option<nat>)
    requires s.Shape() && Inv(s.View()) && s.freed.size <= 1
    ensures Kept(StepAsWritten(s, FreeCall(p))) <==> CallAllowed(s, FreeCall(p))
    ensures CallAllowed(s, FreeCall(p)) ==> StepAsWritten(s, FreeCall(p)).value.freed.size <= 1
  {
    hide FreeAsWritten, TurnedDown, LowerBound, Inv;
    FreeAsWrittenKeepsIff(s, p);
    WholeHeap(s.View());
    if TurnedDown(s, p) {
      TurnedDownChangesNothing(s, p);
    } else {
      SomePointer(s, p);
      var k := LowerBound(s.alloced.Entries(), p.value);
      assert k < s.alloced.size ==> s.alloced.slots[k] == s.View().live[k];
      if s.View().live == [Chunk(0, ALLOC_CAP)] {
        LiveCall(s, 0);
        if p == Some(0) {
          WholeHeapIsFreed(s);
        }
      }
    }
  }

  /** A run of unrepaired calls from the initial heap keeps the partition exactly when every free in it
      is turned down or frees the single chunk that is the whole heap. */
  lemma {:induction false} RunAsWrittenKeepsIff(s: State, calls: seq<Call>)
    requires s.Shape() && Inv(s.View()) && s.freed.size <= 1
    ensures RunKeeps(s, calls) <==> RunAllowed(s, calls)
    decreases |calls|
  {
    hide Inv, StepAsWritten, CallAllowed;
    if calls != [] {
      var c := calls[0];
      match c {
        case AllocCall(size) =>
          AllocStep(s, size);
          assert CallAllowed(s, c) by { AnyAllocation(s, size); }
        case FreeCall(p) =>
          FreeStep(s, p);
      }
      var r := StepAsWritten(s, c);
      if Kept(r) {
        RunAsWrittenKeepsIff(r.value, calls[1..]);
      }
    }
  }

  lemma AnyAllocation(s: State, size: nat)
    requires s.Shape()
    ensures CallAllowed(s, AllocCall(size))
  {
  }

  lemma InitialRunKeepsIff(s: State, calls: seq<Call>)
    requires s.Shape() && s.View() == INITIAL
    ensures RunKeeps(s, calls) <==> RunAllowed(s, calls)
  {
    InitialInv();
    RunAsWrittenKeepsIff(s, calls);
  }

  /** Where a run that keeps the partition ends. */
  ghost function EndOf(s: State, calls: seq<Call>): State
    requires s.Shape() && RunKeeps(s, calls)
    decreases |calls|
  {
    if calls == [] then s else EndOf(StepAsWritten(s, calls[0]).value, calls[1..])
  }

  /** No such run ever has two free chunks: with them the unrepaired code has lost the partition. */
  lemma {:induction false} NeverTwoFreeChunks(s: State, calls: seq<Call>)
    requires s.Shape() && Inv(s.View()) && s.freed.size <= 1 && RunKeeps(s, calls)
    ensures EndOf(s, calls).freed.size <= 1
    decreases |calls|
  {
    hide Inv, StepAsWritten, CallAllowed;
    if calls != [] {
      match calls[0] {
        case AllocCall(size) => AllocStep(s, size);
        case FreeCall(p) => FreeStep(s, p);
      }
      NeverTwoFreeChunks(StepAsWritten(s, calls[0]).value, calls[1..]);
    }
  }

  // ----- inputs on which it fails

  /** The heap allocated as a whole and freed again: the second free of the address is not turned down
      but leaves the table. */
  lemma DoubleFreeLeavesTable(s: State)
    requires s.Shape() && s.View() == INITIAL
    ensures var r := AllocAsWritten(s, ALLOC_CAP);
      r.Some? && r.value.1 == Some(0) && r.value.0.Shape() && Inv(r.value.0.View()) &&
      var r' := FreeAsWritten(r.value.0, Some(0));
      r'.Some? && r'.value.1.Freed? && r'.value.0.Shape() && r'.value.0.View() == INITIAL &&
      FreeAsWritten(r'.value.0, Some(0)) == None
  {
    InitialInv();
    assert s.freed.slots[0] == Chunk(0, ALLOC_CAP) && s.alloced.size == 0 && s.freed.size == 1;
    assert FirstFit(s.freed.Entries(), ALLOC_CAP) == Some(0);
    var s1 := AllocAsWritten(s, ALLOC_CAP).value.0;
    AllocAsWrittenWorksIff(s, ALLOC_CAP);
    assert s1.alloced.slots[0] == Chunk(0, ALLOC_CAP) && s1.alloced.size == 1 && s1.freed.size == 0;
    assert s1.View().live == [Chunk(0, ALLOC_CAP)];
    WholeHeapIsFreed(s1);
    DoubleFree(s1);
  }

  lemma DoubleFree(s: State)
    requires s.Shape() && Inv(s.View()) && s.View().live == [Chunk(0, ALLOC_CAP)]
    ensures var r := FreeAsWritten(s, Some(0));
      r.Some? && r.value.0.Shape() && r.value.0.View() == INITIAL && FreeAsWritten(r.value.0, Some(0)) == None
  {
    hide Inv, FreeAsWritten, TryToMergeAsWritten, EraseAsWritten;
    WholeHeap(s.View());
    LiveCall(s, 0);
    FreeAsWrittenIs(s, 0);
    MergedTable(s, 0);
    FreeAsWrittenWorksIff(s, 0);
    var s' := FreeAsWritten(s, Some(0)).value.0;
    EraseOnly(s.alloced);
    assert s'.View().live == [];
    NothingLiveIsInitial(s'.View());
    NobodyLive(s', 0);
  }

  /** The entry leaves the table, but its slot still holds it. */
  lemma EraseOnly(t: Table)
    requires t.Shape() && t.size == 1
    ensures EraseAsWritten(t, 0).size == 0 && EraseAsWritten(t, 0).Shape() && EraseAsWritten(t, 0).slots[0] == t.slots[0]
  {
  }

  lemma NobodyLive(s: State, p: nat)
    requires s.Shape() && s.alloced.size == 0 && s.freed.size < CHUNKS_CAP
    requires s.alloced.slots[0].ptr == p && s.alloced.slots[0].size > 0
    ensures FreeAsWritten(s, Some(p)) == None
  {
  }

  /** The heap after two requests for a byte and the first byte freed again. */
  const TWO_HOLES := Heap([Chunk(1, 1)], [Chunk(0, 1), Chunk(2, ALLOC_CAP - 2)], ALLOC_CAP - 1)

  lemma TwoHolesReached()
    ensures Inv(INITIAL) && Run(INITIAL, HeapFullTable.Calls(1)) == TWO_HOLES && Inv(TWO_HOLES)
  {
    hide Inv, Run, HeapFullTable.IsSpaced;
    HeapFullTable.RunSpaces(1);
    SpacedOnce(Run(INITIAL, HeapFullTable.Calls(1)));
  }

  lemma AllocBranch(s: State, size: nat, i: nat)
    requires s.Shape() && s.alloced.size < CHUNKS_CAP && 0 < size <= s.freeBytes
    requires FirstFit(s.freed.Entries(), size) == Some(i) && TakeAsWritten(s.freed, i, size).Some?
    ensures var c := Chunk(s.freed.slots[i].ptr, size);
      AllocAsWritten(s, size)
      == Some((State(WithChunk(s.alloced, c), TakeAsWritten(s.freed, i, size).value, s.freeBytes - size), Some(c.ptr)))
  {
    hide TakeAsWritten, WithChunk;
  }

  /** Two holes, which the unrepaired code reaches only with its free path repaired. A third request for
      a byte leaves an empty chunk and loses all the memory behind it. */
  lemma ExactFitLosesMemory(s: State)
    requires s.Shape() && s.View() == TWO_HOLES
    ensures Inv(INITIAL) && Run(INITIAL, HeapFullTable.Calls(1)) == s.View()
    ensures Inv(s.View()) && Alloc(s.View(), 1).0.free == [Chunk(2, ALLOC_CAP - 2)]
    ensures var r := AllocAsWritten(s, 1);
      r.Some? && r.value.0.Shape() && r.value.0.View().free == [Chunk(1, 0)] && !Inv(r.value.0.View())
  {
    TwoHolesReached();
    hide Run, Inv, TakeAsWritten, FirstFit, TotalSize, AllocAsWritten, Alloc, WithChunk;
    assert s.View().free[0] == Chunk(0, 1) && s.freed.size == 2 && s.freed.slots[0] == Chunk(0, 1);
    FirstOfTwo(s.View().free);
    FirstIsTaken(s.View());
    SecondIsLost(s.freed);
    WithChunkIs(s.alloced, Chunk(0, 1));
    AllocBranch(s, 1, 0);
    NoEmptyChunk(AllocAsWritten(s, 1).value.0.View());
  }

  lemma FirstOfTwo(s: seq<Chunk>)
    requires |s| == 2 && s[0].size == 1
    ensures FirstFit(s, 1) == Some(0)
  {
    assert s[..1] == [s[0]] && s[..1][..0] == [];
  }

  lemma FirstIsTaken(h: Heap)
    requires Inv(h) && |h.live| < CHUNKS_CAP && h.freeBytes >= 1 && FirstFit(h.free, 1) == Some(0) && h.free[0].size == 1
    ensures Alloc(h, 1).0.free == h.free[1..]
  {
    hide FirstFit, TotalSize, Insert, Tiles;
    assert h.free[..0] + h.free[1..] == h.free[1..];
  }

  lemma SecondIsLost(t: Table)
    requires t.Shape() && t.size == 2 && t.slots[0] == Chunk(0, 1)
    ensures var r := TakeAsWritten(t, 0, 1); r.Some? && r.value.Shape() && r.value.Entries() == [Chunk(1, 0)]
  {
    var cropped := t.slots[0 := Chunk(1, 0)];
    assert ShiftLoop(cropped, 1, 2) == ShiftLoop(cropped[1 := cropped[2]], 2, 2);
  }

  lemma NoEmptyChunk(h: Heap)
    requires h.free == [Chunk(1, 0)]
    ensures !Inv(h)
  {
    assert h.free[0].size == 0;
  }

  lemma SpacedOnce(h: Heap)
    requires HeapFullTable.IsSpaced(h, 1)
    ensures h == Heap([Chunk(1, 1)], [Chunk(0, 1), Chunk(2, ALLOC_CAP - 2)], ALLOC_CAP - 1)
  {
    assert HeapFullTable.Holes(0) == [] && HeapFullTable.Between(0) == [];
    assert HeapFullTable.HoleAt(0) == 0 && HeapFullTable.HoleAt(1) == 2;
  }

  /** After two one-byte allocations the second byte cannot be freed. */
  lemma SecondByteCannotBeFreed(s: State)
    requires s.Shape() && s.View() == INITIAL
    ensures var r := AllocAsWritten(s, 1);
      r.Some? && r.value.0.Shape() &&
      var r' := AllocAsWritten(r.value.0, 1);
      r'.Some? && r'.value.1 == Some(1) && r'.value.0.Shape() &&
      FreeAsWritten(r'.value.0, Some(1)) == Some((r'.value.0, InvalidArgument))
  {
    InitialInv();
    OneByte(s, []);
    var s1 := AllocAsWritten(s, 1).value.0;
    OneByte(s1, [Chunk(0, 1)]);
    var s2 := AllocAsWritten(s1, 1).value.0;
    hide AllocAsWritten, Inv;
    SecondByte(s2);
  }

  /** One more byte off the front of the only free chunk. */
  lemma OneByte(s: State, live: seq<Chunk>)
    requires s.Shape() && Inv(s.View()) && (live == [] || live == [Chunk(0, 1)])
    requires s.View() == Heap(live, [Chunk(|live|, ALLOC_CAP - |live|)], ALLOC_CAP - |live|)
    ensures var r, n := AllocAsWritten(s, 1), |live|;
      r.Some? && r.value.0.Shape() && Inv(r.value.0.View()) && r.value.1 == Some(n)
      && r.value.0.View() == Heap(live + [Chunk(n, 1)], [Chunk(n + 1, ALLOC_CAP - n - 1)], ALLOC_CAP - n - 1)
  {
    hide Inv, AllocAsWritten, TotalSize, AllocGuard, Alloc;
    var n, h := |live|, s.View();
    assert h.free == [] + [Chunk(n, ALLOC_CAP - n)];
    assert n == 1 ==> h.live[0] == Chunk(0, 1);
    HeapFullTable.CountsBytes(h);
    HeapFullTable.AllocFromLast(h, [], n, ALLOC_CAP - n, 1);
    AllocFreeCount(s.View(), 1);
    AllocAsWrittenWorksIff(s, 1);
  }

  lemma SecondByte(s: State)
    requires s.Shape() && s.View().live == [Chunk(0, 1), Chunk(1, 1)]
    ensures FreeAsWritten(s, Some(1)) == Some((s, InvalidArgument))
  {
    BoundIs(s.View().live, 1, 1);
    assert s.alloced.slots[1] == s.View().live[1];
  }
}
