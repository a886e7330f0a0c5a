/** The allocator over its two bounded chunk tables, with the five repairs README.md lists. */
module HeapAllocator {
  import opened Options
  import opened HeapSpec
  import opened HeapProofs
  import opened HeapTheorems

  /** The order of the chunk tables: by address, then by size. */
  predicate Less(a: Chunk, b: Chunk) {
    if a.ptr == b.ptr then a.size < b.size else 0 < b.ptr - a.ptr
  }

  class Allocator {
    var freeHeapSize: nat
    const alloced: array<Chunk>
    var allocedSize: nat
    const freed: array<Chunk>
    var freedSize: nat

    ghost predicate Shape()
      reads this
    {
      && alloced != freed
      && alloced.Length == CHUNKS_CAP && freed.Length == CHUNKS_CAP
      && allocedSize <= CHUNKS_CAP && freedSize <= CHUNKS_CAP
    }

    ghost predicate Valid()
      reads this, alloced, freed
    {
      Shape() && Inv(View())
    }

    ghost function View(): Heap
      requires Shape()
      reads this, alloced, freed
    {
      Heap(alloced[..allocedSize], freed[..freedSize], freeHeapSize)
    }

    constructor ()
      ensures Valid() && View() == INITIAL && fresh(alloced) && fresh(freed)
    {
      freeHeapSize := ALLOC_CAP;
      alloced := new Chunk[CHUNKS_CAP](_ => Chunk(0, 0));
      allocedSize := 0;
      freed := new Chunk[CHUNKS_CAP](i => if i == 0 then Chunk(0, ALLOC_CAP) else Chunk(0, 0));
      freedSize := 1;
      new;
      assert View() == INITIAL;
      InitialInv();
    }

    // ----- allocating

    method AllocChunk(ptr: nat, size: nat)
      requires Shape() && allocedSize < CHUNKS_CAP
      modifies alloced, this`allocedSize
      ensures Shape() && allocedSize == old(allocedSize) + 1
      ensures alloced[..allocedSize] == Insert(old(alloced[..allocedSize]), Chunk(ptr, size))
    {
      hide Insert, LowerBound, Shifted;
      ghost var s, c := alloced[..allocedSize], Chunk(ptr, size);
      alloced[allocedSize] := Chunk(ptr, size);
      allocedSize := allocedSize + 1;
      var i: nat := allocedSize - 1;
      ShiftedNone(alloced[..allocedSize], s, c);
      while i > 0
        invariant i <= |s| && allocedSize == |s| + 1
        invariant Shifted(alloced[..allocedSize], s, c, i)
        invariant forall k :: i <= k < |s| ==> s[k].ptr >= ptr
      {
        ghost var t := alloced[..allocedSize];
        ShiftedStep(t, s, c, i);
        if alloced[i - 1].ptr < ptr {
          break;
        }
        alloced[i], alloced[i - 1] := alloced[i - 1], alloced[i];
        assert alloced[..allocedSize] == t[i := t[i - 1]][i - 1 := t[i]];
        i := i - 1;
      }
      ShiftedIsInserted(alloced[..allocedSize], s, c, i);
    }

    method CropChunk(i: nat, memUsed: nat)
      requires Shape() && i < freedSize && memUsed <= freed[i].size
      modifies freed
      ensures freed[..freedSize] == old(freed[..freedSize])[i := Chunk(old(freed[i]).ptr + memUsed, old(freed[i]).size - memUsed)]
    {
      freed[i] := freed[i].(size := freed[i].size - memUsed);
      freed[i] := freed[i].(ptr := freed[i].ptr + memUsed);
    }

    /** Closes the gap left by entry i of the free table. */
    method RemoveFreed(i: nat)
      requires Shape() && i < freedSize
      modifies freed, this`freedSize
      ensures Shape() && freedSize == old(freedSize) - 1
      ensures freed[..freedSize] == old(freed[..freedSize])[..i] + old(freed[..freedSize])[i + 1..]
    {
      ghost var s := freed[..freedSize];
      for j := i + 1 to freedSize
        invariant freedSize == |s|
        invariant forall k :: 0 <= k < freedSize ==> freed[k] == s[if i <= k < j - 1 then k + 1 else k]
      {
        freed[j - 1] := freed[j];
      }
      freedSize := freedSize - 1;
    }

    method HeapAlloc(size: nat) returns (r: Option<nat>)
      requires Valid()
      modifies this, alloced, freed
      ensures Valid() && (View(), r) == Alloc(old(View()), size)
      ensures r.None? ==> View() == old(View())
    {
      hide Inv, Take, TotalSize, Insert, FirstFit;
      ghost var h := View();
      AllocKeepsInv(h, size);
      RefusedAllocChangesNothing(h, size);
      if allocedSize == CHUNKS_CAP {
        return None;
      }
      if size == 0 || size > freeHeapSize {
        return None;
      }
      for i := 0 to freedSize
        invariant View() == h && Shape()
        invariant forall k :: 0 <= k < i ==> freed[k].size < size
      {
        if freed[i].size >= size {
          FirstFitIs(h.free, i, size);
          TakeIs(h.free, i, size);
          var ptr := freed[i].ptr;
          CropChunk(i, size);
          if freed[i].size == 0 {
            RemoveFreed(i);
          }
          freeHeapSize := freeHeapSize - size;
          AllocChunk(ptr, size);
          return Some(ptr);
        }
      }
      return None;
    }

    // ----- freeing

    method EraseChunkFromAlloced(pos: nat)
      requires Shape() && pos < allocedSize
      modifies alloced, this`allocedSize
      ensures Shape() && allocedSize == old(allocedSize) - 1
      ensures alloced[..allocedSize] == old(alloced[..allocedSize])[..pos] + old(alloced[..allocedSize])[pos + 1..]
    {
      ghost var s := alloced[..allocedSize];
      for i := pos + 1 to allocedSize
        invariant allocedSize == |s|
        invariant forall k :: 0 <= k < allocedSize ==> alloced[k] == s[if pos <= k < i - 1 then k + 1 else k]
      {
        alloced[i - 1] := alloced[i];
      }
      allocedSize := allocedSize - 1;
    }

    /** Whether free chunk pos ends where the next one starts. */
    predicate IsNextNeighbouring(pos: nat)
      requires Shape() && pos + 1 < freedSize
      reads this, freed
    {
      freed[pos].ptr + freed[pos].size == freed[pos + 1].ptr
    }

    /** Moves everything behind chunk i up to just behind chunk left. */
    method Compact(left: nat, i: nat)
      requires Shape() && left < i < freedSize
      modifies freed, this`freedSize
      ensures Shape()
      ensures freed[..freedSize] == old(freed[..freedSize])[..left + 1] + old(freed[..freedSize])[i + 1..]
    {
      ghost var s := freed[..freedSize];
      var diff := 1;
      while i + diff < freedSize
        invariant 1 <= diff && i + diff <= freedSize == |s|
        invariant forall k :: 0 <= k < freedSize ==> freed[k] == s[if left < k < left + diff then k + (i - left) else k]
      {
        freed[left + diff] := freed[i + diff];
        diff := diff + 1;
      }
      freedSize := freedSize - (i - left);
    }

    method TryToMergeFreedChunks(pos: nat)
      requires Shape() && pos < freedSize
      modifies freed, this`freedSize
      ensures Shape()
      ensures var s := old(freed[..freedSize]);
        freed[..freedSize] == MergeRun(s, if pos > 0 && Touching(s, pos - 1) then pos - 1 else pos)
    {
      hide MergeRun, Merging;
      var left := pos;
      if pos > 0 && IsNextNeighbouring(pos - 1) {
        left := pos - 1;
      }
      ghost var s := freed[..freedSize];
      assert left == if pos > 0 && Touching(s, pos - 1) then pos - 1 else pos;
      var i: nat := left;
      MergeBegins(s, left);
      while i + 1 < freedSize
        invariant left <= i < freedSize == |s| && Merging(freed[..freedSize], s, left, i)
      {
        ghost var t := freed[..freedSize];
        MergeStep(t, s, left, i);
        assert IsNextNeighbouring(i) == Touching(s, i);
        if !IsNextNeighbouring(i) {
          if i == left {
            return;
          }
          Compact(left, i);
          return;
        }
        freed[left] := freed[left].(size := freed[left].size + freed[i + 1].size);
        assert freed[..freedSize] == t[left := Chunk(t[left].ptr, t[left].size + t[i + 1].size)];
        i := i + 1;
      }
      MergeEnds(freed[..freedSize], s, left, i);
      freedSize := left + 1;
    }

    /** False when the table of free chunks is full, which the source reports as fragmentation. */
    method AddChunkToFreed(chunk: Chunk) returns (ok: bool)
      requires Shape() && forall i :: 0 <= i < freedSize ==> freed[i].ptr != chunk.ptr
      modifies freed, this`freedSize, this`freeHeapSize
      ensures Shape() && ok == (old(freedSize) < CHUNKS_CAP)
      ensures !ok ==> View() == old(View())
      ensures ok ==> freeHeapSize == old(freeHeapSize) + chunk.size
      ensures ok ==> freed[..freedSize] == Join(old(freed[..freedSize]), chunk)
    {
      hide MergeRun, Insert, LowerBound, Shifted;
      if freedSize == CHUNKS_CAP {
        return false;
      }
      ghost var s := freed[..freedSize];
      freeHeapSize := freeHeapSize + chunk.size;
      freed[freedSize] := chunk;
      freedSize := freedSize + 1;
      var i: nat := freedSize - 1;
      ShiftedNone(freed[..freedSize], s, chunk);
      while i > 0
        invariant i <= |s| && freedSize == |s| + 1
        invariant Shifted(freed[..freedSize], s, chunk, i)
        invariant freeHeapSize == old(freeHeapSize) + chunk.size
        invariant forall k :: i <= k < |s| ==> s[k].ptr >= chunk.ptr
      {
        ghost var t := freed[..freedSize];
        ShiftedStep(t, s, chunk, i);
        if freed[i].ptr < freed[i - 1].ptr {
          freed[i], freed[i - 1] := freed[i - 1], freed[i];
          assert freed[..freedSize] == t[i := t[i - 1]][i - 1 := t[i]];
          i := i - 1;
          continue;
        }
        assert s[i - 1].ptr != chunk.ptr;
        ShiftedIsInserted(freed[..freedSize], s, chunk, i);
        TryToMergeFreedChunks(i);
        return true;
      }
      ShiftedIsInserted(freed[..freedSize], s, chunk, i);
      TryToMergeFreedChunks(0);
      return true;
    }

    /** The library's lower_bound over the table of live chunks. */
    method FindLive(ptr: nat) returns (pos: nat)
      requires Shape() && Ordered(alloced[..allocedSize])
      ensures pos == LowerBound(alloced[..allocedSize], ptr)
    {
      ghost var s := alloced[..allocedSize];
      pos := 0;
      var len := allocedSize;
      while len > 0
        invariant pos + len <= allocedSize
        invariant forall i :: 0 <= i < pos ==> s[i].ptr < ptr
        invariant forall i :: pos + len <= i < |s| ==> s[i].ptr >= ptr
      {
        var half := len / 2;
        if Less(alloced[pos + half], Chunk(ptr, 0)) {
          pos, len := pos + half + 1, len - half - 1;
        } else {
          len := half;
        }
      }
      LowerBoundIs(s, ptr, pos);
    }

    method HeapFree(ptr: Option<nat>) returns (r: FreeResult)
      requires Valid()
      modifies this, alloced, freed
      ensures Valid() && (View(), r) == Free(old(View()), ptr)
      ensures r == if ptr.None? then NullPointer else if !IsLive(old(View()), ptr.value) then InvalidArgument
                   else if |old(View()).free| == CHUNKS_CAP then Fragmentation else Freed
      ensures r != Freed ==> View() == old(View())
    {
      hide Join, LowerBound, Inv, Ordered, IsLive;
      ghost var h := View();
      FreeKeepsInv(h, ptr);
      FreeOutcome(h, ptr);
      LiveIsOrdered(h);
      if ptr.None? {
        return NullPointer;
      }
      var chunkPos := FindLive(ptr.value);
      if chunkPos >= allocedSize || alloced[chunkPos].ptr != ptr.value {
        return InvalidArgument;
      }
      LiveIsNotFree(h, chunkPos);
      var ok := AddChunkToFreed(alloced[chunkPos]);
      if !ok {
        return Fragmentation;
      }
      EraseChunkFromAlloced(chunkPos);
      return Freed;
    }
  }

  // ----- how the loops meet the specification

  lemma FirstFitIs(s: seq<Chunk>, i: nat, size: nat)
    requires i < |s| && s[i].size >= size && forall k :: 0 <= k < i ==> s[k].size < size
    ensures FirstFit(s, size) == Some(i)
  {
  }

  lemma TakeIs(s: seq<Chunk>, i: nat, size: nat)
    requires i < |s| && size <= s[i].size
    ensures var t := s[i := Chunk(s[i].ptr + size, s[i].size - size)];
      Take(s, i, size) == if t[i].size == 0 then t[..i] + t[i + 1..] else t
  {
  }

  lemma LiveIsOrdered(h: Heap)
    requires Inv(h)
    ensures Ordered(h.live)
  {
  }

  lemma LiveIsNotFree(h: Heap, k: nat)
    requires Inv(h) && k < |h.live|
    ensures forall i :: 0 <= i < |h.free| ==> h.free[i].ptr != h.live[k].ptr
  {
    LiveBytesAreNotFree(h, k);
  }

  lemma LowerBoundIs(s: seq<Chunk>, p: nat, k: nat)
    requires k <= |s| && (forall i :: 0 <= i < k ==> s[i].ptr < p) && (forall i :: k <= i < |s| ==> s[i].ptr >= p)
    ensures LowerBound(s, p) == k
  {
  }

  /** t is s with c at index i and everything from i on one place further. */
  ghost predicate Shifted(t: seq<Chunk>, s: seq<Chunk>, c: Chunk, i: nat) {
    && |t| == |s| + 1 && i <= |s|
    && (forall k :: 0 <= k < i ==> t[k] == s[k])
    && t[i] == c
    && (forall k :: i < k < |t| ==> t[k] == s[k - 1])
  }

  lemma ShiftedNone(t: seq<Chunk>, s: seq<Chunk>, c: Chunk)
    requires t == s + [c]
    ensures Shifted(t, s, c, |s|)
  {
  }

  /** Exchanging c with the chunk before it moves it one place forward. */
  lemma ShiftedStep(t: seq<Chunk>, s: seq<Chunk>, c: Chunk, i: nat)
    requires Shifted(t, s, c, i) && i > 0
    ensures i <= |s| && |t| == |s| + 1 && t[i] == c && t[i - 1] == s[i - 1]
    ensures Shifted(t[i := t[i - 1]][i - 1 := t[i]], s, c, i - 1)
  {
  }

  lemma ShiftedIsInserted(t: seq<Chunk>, s: seq<Chunk>, c: Chunk, i: nat)
    requires Shifted(t, s, c, i) && i <= |s| && (i > 0 ==> s[i - 1].ptr < c.ptr)
    requires forall k :: i <= k < |s| ==> s[k].ptr >= c.ptr
    ensures t == Insert(s, c) && LowerBound(s, c.ptr) == i
  {
    InsertedAt(s, c, i, t);
  }

  /** The list in which the chunk at left has swallowed all chunks up to i. */
  ghost function Swallowed(s: seq<Chunk>, left: nat, i: nat): (t: seq<Chunk>)
    requires left <= i < |s|
    ensures |t| == |s| - (i - left)
  {
    s[..left] + [Chunk(s[left].ptr, SizeBetween(s, left, i))] + s[i + 1..]
  }

  ghost function SizeBetween(s: seq<Chunk>, left: nat, i: nat): nat
    requires left <= i < |s|
  {
    if i == left then s[left].size else SizeBetween(s, left, i - 1) + s[i].size
  }

  lemma MergedToTheEnd(s: seq<Chunk>, left: nat, i: nat)
    requires left <= i == |s| - 1
    ensures var t := s[left := Chunk(s[left].ptr, SizeBetween(s, left, i))];
      MergeRun(Swallowed(s, left, i), left) == Swallowed(s, left, i) == t[..left + 1]
  {
  }

  lemma CompactedIsSwallowed(s: seq<Chunk>, left: nat, i: nat, t: seq<Chunk>)
    requires left <= i < |s| && t == s[left := Chunk(s[left].ptr, SizeBetween(s, left, i))]
    ensures t[..left + 1] + t[i + 1..] == Swallowed(s, left, i)
  {
  }

  /** t is s while the chunk at left has taken over the sizes up to chunk i. */
  ghost predicate Merging(t: seq<Chunk>, s: seq<Chunk>, left: nat, i: nat) {
    && left <= i < |s| && t == s[left := Chunk(s[left].ptr, SizeBetween(s, left, i))]
    && s[left].ptr + SizeBetween(s, left, i) == s[i].End()
    && MergeRun(s, left) == MergeRun(Swallowed(s, left, i), left)
  }

  lemma MergeBegins(s: seq<Chunk>, left: nat)
    requires left < |s|
    ensures Merging(s, s, left, left)
  {
    SwallowedNone(s, left);
  }

  lemma MergeStep(t: seq<Chunk>, s: seq<Chunk>, left: nat, i: nat)
    requires Merging(t, s, left, i) && i + 1 < |s|
    ensures |t| == |s| && left <= i && t[i + 1] == s[i + 1] && (Touching(t, i) <==> Touching(s, i))
    ensures Touching(s, i) ==> Merging(t[left := Chunk(t[left].ptr, t[left].size + t[i + 1].size)], s, left, i + 1)
    ensures !Touching(s, i) ==> t[..left + 1] + t[i + 1..] == MergeRun(s, left) && (i == left ==> t == MergeRun(s, left))
  {
    hide MergeRun, Swallowed;
    SwallowedStep(s, left, i);
    CompactedIsSwallowed(s, left, i, t);
    if i == left {
      SwallowedNone(s, left);
    }
  }

  lemma MergeEnds(t: seq<Chunk>, s: seq<Chunk>, left: nat, i: nat)
    requires Merging(t, s, left, i) && i + 1 == |s|
    ensures left + 1 <= |t| && t[..left + 1] == MergeRun(s, left)
  {
    MergedToTheEnd(s, left, i);
  }

  lemma SwallowedNone(s: seq<Chunk>, left: nat)
    requires left < |s|
    ensures Swallowed(s, left, left) == s && SizeBetween(s, left, left) == s[left].size
    ensures s[left := Chunk(s[left].ptr, s[left].size)] == s
  {
  }

  lemma SwallowedStep(s: seq<Chunk>, left: nat, i: nat)
    requires left <= i && i + 1 < |s|
    requires s[left].ptr + SizeBetween(s, left, i) == s[i].End()
    ensures SizeBetween(s, left, i + 1) == SizeBetween(s, left, i) + s[i + 1].size
    ensures Touching(s, i) ==> MergeRun(Swallowed(s, left, i), left) == MergeRun(Swallowed(s, left, i + 1), left)
    ensures !Touching(s, i) ==> MergeRun(Swallowed(s, left, i), left) == Swallowed(s, left, i)
  {
    hide MergeRun, Swallowed;
    MergeRunStep(Swallowed(s, left, i), left);
    SwallowedMerged(s, left, i);
  }

  lemma MergeRunStep(t: seq<Chunk>, left: nat)
    requires left + 1 < |t|
    ensures MergeRun(t, left) == if Touching(t, left) then MergeRun(Merged(t, left), left) else t
  {
  }

  lemma SwallowedMerged(s: seq<Chunk>, left: nat, i: nat)
    requires left <= i && i + 1 < |s|
    requires s[left].ptr + SizeBetween(s, left, i) == s[i].End()
    ensures var t := Swallowed(s, left, i);
      (Touching(t, left) <==> Touching(s, i)) && Merged(t, left) == Swallowed(s, left, i + 1)
  {
    var t := Swallowed(s, left, i);
    assert t[left] == Chunk(s[left].ptr, SizeBetween(s, left, i)) && t[left + 1] == s[i + 1];
    assert t[..left] == s[..left] && t[left + 2..] == s[i + 2..];
  }
}
