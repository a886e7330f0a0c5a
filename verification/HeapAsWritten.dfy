/** The allocator exactly as the source has it, without the repairs, and the exact
    conditions under which its two calls nevertheless keep the partition. */
module HeapAsWritten {
  import opened Options
  import opened HeapSpec
  import opened HeapProofs
  import opened HeapTheorems

  /** A chunk table with the slots behind its entries, whatever they hold. */
  datatype Table = Table(slots: seq<Chunk>, size: nat) {
    ghost predicate Shape() { |slots| == CHUNKS_CAP && size <= CHUNKS_CAP }
    function Entries(): seq<Chunk>
      requires size <= |slots|
    { slots[..size] }
  }

  datatype State = State(alloced: Table, freed: Table, freeBytes: nat) {
    ghost predicate Shape() { alloced.Shape() && freed.Shape() }
    ghost function View(): Heap
      requires Shape()
    { Heap(alloced.Entries(), freed.Entries(), freeBytes) }
  }

  // ----- heap_alloc; None stands for an access outside a table

  /** The removal loop copies the next slot over slot j, from j = i + 1 on. */
  function ShiftLoop(slots: seq<Chunk>, j: nat, size: nat): Option<seq<Chunk>>
    requires |slots| == CHUNKS_CAP
    decreases size - j
  {
    if j >= size then Some(slots)
    else if j + 1 >= CHUNKS_CAP then None
    else ShiftLoop(slots[j := slots[j + 1]], j + 1, size)
  }

  function TakeAsWritten(t: Table, i: nat, size: nat): Option<Table>
    requires |t.slots| == CHUNKS_CAP && i < t.size <= CHUNKS_CAP && size <= t.slots[i].size
  {
    var cropped := t.slots[i := Chunk(t.slots[i].ptr + size, t.slots[i].size - size)];
    if cropped[i].size > 0 then Some(Table(cropped, t.size))
    else
      match ShiftLoop(cropped, i + 1, t.size)
      case None => None
      case Some(slots) => Some(Table(slots, t.size - 1))
  }

  function AllocAsWritten(s: State, size: nat): Option<(State, Option<nat>)>
    requires |s.alloced.slots| == CHUNKS_CAP && |s.freed.slots| == CHUNKS_CAP
    requires s.alloced.size <= CHUNKS_CAP && s.freed.size <= CHUNKS_CAP
  {
    if s.alloced.size == CHUNKS_CAP || size == 0 || size > s.freeBytes then Some((s, None))
    else
      match FirstFit(s.freed.Entries(), size)
      case None => Some((s, None))
      case Some(i) =>
        var c := Chunk(s.freed.slots[i].ptr, size);
        match TakeAsWritten(s.freed, i, size)
        case None => None
        case Some(freed) =>
          Some((State(WithChunk(s.alloced, c), freed, s.freeBytes - size), Some(c.ptr)))
  }

  /** alloc_chunk: the entries with the chunk at its sorted place. */
  function WithChunk(t: Table, c: Chunk): Table
    requires t.size < |t.slots|
  {
    Table(Insert(t.Entries(), c) + t.slots[t.size + 1..], t.size + 1)
  }

  // ----- heap_free

  /** The neighbour test compares chunk p with itself, moved by the size of chunk p - 1. */
  function IsNextAsWritten(slots: seq<Chunk>, p: nat): Option<bool>
    requires |slots| == CHUNKS_CAP
  {
    if p == 0 || p >= CHUNKS_CAP then None
    else Some(slots[p].ptr + slots[p - 1].size == slots[p].ptr)
  }

  function CompactAsWritten(t: Table, left: nat, i: nat, diff: nat): (r: Table)
    requires |t.slots| == CHUNKS_CAP && t.size <= CHUNKS_CAP && left <= i
    ensures |r.slots| == CHUNKS_CAP
    decreases t.size - diff
  {
    if i + diff >= t.size then t
    else CompactAsWritten(Table(t.slots[left + diff := t.slots[i + diff]], t.size), left, i, diff + 1)
  }

  function MergeLoop(t: Table, left: nat, i: nat): (r: Option<Table>)
    requires |t.slots| == CHUNKS_CAP && t.size <= CHUNKS_CAP && left <= i
    ensures r.Some? ==> |r.value.slots| == CHUNKS_CAP
    decreases t.size - i
  {
    if i + 1 >= t.size then Some(Table(t.slots, left + 1))
    else
      match IsNextAsWritten(t.slots, i)
      case None => None
      case Some(true) =>
        MergeLoop(Table(t.slots[left := Chunk(t.slots[left].ptr, t.slots[left].size + t.slots[i + 1].size)], t.size), left, i + 1)
      case Some(false) => Some(if i == left then t else CompactAsWritten(t, left, i, 1))
  }

  function TryToMergeAsWritten(t: Table, pos: nat): (r: Option<Table>)
    requires |t.slots| == CHUNKS_CAP && t.size <= CHUNKS_CAP
    ensures r.Some? ==> |r.value.slots| == CHUNKS_CAP
  {
    if pos == 0 then MergeLoop(t, 0, 0)
    else
      match IsNextAsWritten(t.slots, pos - 1)
      case None => None
      case Some(b) => var left := if b then pos - 1 else pos; MergeLoop(t, left, left)
  }

  /** The ordering walk runs over the table of live chunks. */
  function Walk(slots: seq<Chunk>, i: nat): (r: (seq<Chunk>, nat))
    requires i < |slots|
    ensures |r.0| == |slots| && r.1 <= i
    decreases i
  {
    if i > 0 && slots[i].ptr < slots[i - 1].ptr then Walk(slots[i := slots[i - 1]][i - 1 := slots[i]], i - 1)
    else (slots, i)
  }

  function EraseAsWritten(t: Table, pos: nat): Table
    requires t.size <= |t.slots| && t.size > 0
  {
    if pos >= t.size then Table(t.slots, t.size - 1)
    else Table(t.slots[..pos] + t.slots[pos + 1..t.size] + t.slots[t.size - 1..], t.size - 1)
  }

  function FreeAsWritten(s: State, p: Option<nat>): Option<(State, FreeResult)>
    requires |s.alloced.slots| == CHUNKS_CAP && |s.freed.slots| == CHUNKS_CAP
    requires s.alloced.size <= CHUNKS_CAP && s.freed.size <= CHUNKS_CAP
  {
    if p.None? then Some((s, NullPointer))
    else
      var k := LowerBound(s.alloced.Entries(), p.value);
      if k == CHUNKS_CAP then None
      else
        var chunk := s.alloced.slots[k];
        if k >= chunk.size || chunk.ptr != p.value then Some((s, InvalidArgument))
        else if s.freed.size == CHUNKS_CAP then Some((s, Fragmentation))
        else if s.alloced.size == 0 then None
        else
          var (slots, pos) := Walk(s.alloced.slots, s.alloced.size - 1);
          match TryToMergeAsWritten(Table(s.freed.slots[s.freed.size := chunk], s.freed.size + 1), pos)
          case None => None
          case Some(freed) =>
            Some((State(EraseAsWritten(Table(slots, s.alloced.size), k), freed, s.freeBytes + chunk.size), Freed))
  }

  // ----- when the unrepaired removal works

  lemma ShiftKeepsBelow(slots: seq<Chunk>, j: nat, size: nat)
    requires |slots| == CHUNKS_CAP
    ensures var r := ShiftLoop(slots, j, size);
      r.Some? ==> |r.value| == CHUNKS_CAP && forall k :: 0 <= k < j && k < CHUNKS_CAP ==> r.value[k] == slots[k]
    decreases size - j
  {
  }

  /** Taking memory out of free chunk i leaves what it should exactly when the chunk is not used up
      or is the last one: otherwise an empty chunk stays and the next one is lost. */
  lemma TakeAsWrittenWorksIff(t: Table, i: nat, size: nat)
    requires t.Shape() && Ordered(t.Entries()) && i < t.size && 0 < size <= t.slots[i].size
    ensures var r := TakeAsWritten(t, i, size);
      (r.Some? && r.value.size <= CHUNKS_CAP == |r.value.slots| && r.value.Entries() == Take(t.Entries(), i, size))
      <==> (size < t.slots[i].size || i == t.size - 1)
  {
    assert t.Entries()[i] == t.slots[i];
    var cropped := t.slots[i := Chunk(t.slots[i].ptr + size, t.slots[i].size - size)];
    if size == t.slots[i].size {
      ShiftKeepsBelow(cropped, i + 1, t.size);
      var r := TakeAsWritten(t, i, size);
      if i < t.size - 1 && r.Some? {
        assert r.value.Entries()[i].size == 0;
        assert Take(t.Entries(), i, size)[i] == t.Entries()[i + 1];
      }
    }
  }

  /** What a caller can check beforehand: nothing fits, or the first chunk that does is larger than
      the request or the last one. */
  ghost predicate AllocGuard(h: Heap, size: nat)
    requires Inv(h)
  {
    Alloc(h, size).1.Some? ==>
      var i := FirstFit(h.free, size).value;
      size < h.free[i].size || i == |h.free| - 1
  }

  lemma EmptyChunkLeft(t: Table, i: nat, size: nat)
    requires t.Shape() && i < t.size - 1 && size == t.slots[i].size
    ensures var r := TakeAsWritten(t, i, size);
      r.Some? && r.value.Shape() ==> !Ordered(r.value.Entries())
  {
    var cropped := t.slots[i := Chunk(t.slots[i].ptr + size, t.slots[i].size - size)];
    ShiftKeepsBelow(cropped, i + 1, t.size);
    var r := TakeAsWritten(t, i, size);
    if r.Some? && r.value.Shape() {
      assert r.value.Entries()[i].size == 0;
    }
  }

  lemma WithChunkIs(t: Table, c: Chunk)
    requires t.Shape() && t.size < CHUNKS_CAP
    ensures WithChunk(t, c).Shape() && WithChunk(t, c).Entries() == Insert(t.Entries(), c)
  {
    hide Insert;
  }

  /** The unrepaired heap_alloc keeps the partition exactly under the guard, and then does what the
      repaired one does. */
  lemma AllocAsWrittenWorksIff(s: State, size: nat)
    requires s.Shape() && Inv(s.View())
    ensures var r := AllocAsWritten(s, size);
      && (r.Some? && r.value.0.Shape() && Inv(r.value.0.View()) <==> AllocGuard(s.View(), size))
      && (AllocGuard(s.View(), size) ==> (r.value.0.View(), r.value.1) == Alloc(s.View(), size))
  {
    hide Insert, Take, TakeAsWritten, TotalSize, Tiles, Ordered, Coalesced, FirstFit;
    var h := s.View();
    AllocKeepsInv(h, size);
    if Alloc(h, size).1.Some? {
      var i := FirstFit(h.free, size).value;
      assert h.free[i] == s.freed.slots[i];
      FreeIsOrdered(h);
      TakeAsWrittenWorksIff(s.freed, i, size);
      WithChunkIs(s.alloced, Chunk(s.freed.slots[i].ptr, size));
      if !AllocGuard(h, size) {
        EmptyChunkLeft(s.freed, i, size);
      }
    }
  }

  lemma FreeIsOrdered(h: Heap)
    requires Inv(h)
    ensures Ordered(h.free)
  {
  }

  // ----- when the unrepaired heap_free works

  ghost predicate FreeWorks(s: State, p: nat)
    requires s.Shape()
  {
    var r := FreeAsWritten(s, Some(p));
    r.Some? && r.value.1.Freed? && r.value.0.Shape() && Inv(r.value.0.View())
  }

  /** What a caller can check beforehand about live chunk k of a live chunks and f free ones. */
  ghost predicate FreeGuard(h: Heap, k: nat)
    requires k < |h.live|
  {
    var a, f := |h.live|, |h.free|;
    && k < h.live[k].size && f < CHUNKS_CAP
    && ((a == 1 && f == 0) || (3 <= a <= f + 1 && h.free[f - 1].End() < h.live[k].ptr))
  }

  lemma WalkStays(slots: seq<Chunk>, i: nat)
    requires i < |slots| && (i > 0 ==> slots[i - 1].ptr <= slots[i].ptr)
    ensures Walk(slots, i) == (slots, i)
  {
  }

  /** Where the merge leaves the table: its slots as they are, and possibly too many of them. */
  lemma MergeOutcome(t: Table, a: nat)
    requires t.Shape() && 0 < a <= CHUNKS_CAP && t.size > 0 && forall i :: 0 <= i < t.size ==> t.slots[i].size > 0
    ensures var r := TryToMergeAsWritten(t, a - 1);
      if a == 1 then r == if t.size == 1 then Some(t) else None
      else if a == 2 then r == None
      else r.Some? && r.value.slots == t.slots && (if a <= t.size then r.value.size == t.size else r.value.size > t.size)
  {
    if a >= 3 {
      assert IsNextAsWritten(t.slots, a - 2) == Some(t.slots[a - 3].size == 0);
      assert IsNextAsWritten(t.slots, a - 1) == Some(t.slots[a - 2].size == 0);
    }
  }

  /** One entry too many in the free list overlaps something. */
  lemma NoRoomForMore(h: Heap, k: nat, free: seq<Chunk>, bytes: nat)
    requires Inv(h) && k < |h.live| && |free| > |h.free| + 1
    requires free[..|h.free|] == h.free && free[|h.free|] == h.live[k]
    ensures !Inv(Heap(h.live[..k] + h.live[k + 1..], free, bytes))
  {
    var live, f := h.live[..k] + h.live[k + 1..], |h.free|;
    var x := free[f + 1];
    if Ordered(free) && Within(free) {
      assert Covers(free, x.ptr);
      RemoveCovers(h.live, k, x.ptr);
      assert !Covers(h.free, x.ptr) by {
        assert forall i :: 0 <= i < f ==> free[i] == h.free[i] && free[i].End() <= x.ptr;
      }
      assert free[f].End() <= x.ptr;
      assert Covers(h.live, x.ptr);
      assert Covers(live, x.ptr);
    }
  }

  /** The heap after live chunk k has become the last entry of the free list. */
  ghost function Appended(h: Heap, k: nat): Heap
    requires k < |h.live|
  {
    Heap(h.live[..k] + h.live[k + 1..], h.free + [h.live[k]], h.freeBytes + h.live[k].size)
  }

  ghost predicate BelongsLast(h: Heap, c: Chunk) {
    h.free == [] || h.free[|h.free| - 1].End() < c.ptr
  }

  lemma AppendOrder(h: Heap, k: nat)
    requires Inv(h) && k < |h.live| && BelongsLast(h, h.live[k])
    ensures var s := Appended(h, k).free; Ordered(s) && Coalesced(s) && Within(s)
  {
    hide TotalSize, Tiles, Covers;
    var c, f := h.live[k], |h.free|;
    var s := h.free + [c];
    assert Within(h.live) && Within(h.free) by { TilesWithin(h); }
    forall i | 0 <= i < f ensures s[i] == h.free[i] && s[i].End() < c.ptr {
      assert i < f - 1 ==> h.free[i].End() <= h.free[f - 1].ptr;
    }
    assert s[f] == c;
  }

  lemma TilesWithin(h: Heap)
    requires Inv(h)
    ensures Within(h.live) && Within(h.free)
  {
  }

  lemma AppendCovers(h: Heap, k: nat, a: int)
    requires Inv(h) && k < |h.live| && 0 <= a < ALLOC_CAP
    ensures Covers(Appended(h, k).live, a) <==> !Covers(Appended(h, k).free, a)
  {
    var c := h.live[k];
    RemoveCovers(h.live, k, a);
    CoversConcat(h.free, [c], a);
    CoversOne(c, a);
    if c.ptr <= a < c.End() {
      assert Covers(h.live, a);
    }
  }

  /** Appending chunk k to the free list keeps the partition exactly when it belongs at the end. */
  lemma AppendWorksIff(h: Heap, k: nat)
    requires Inv(h) && k < |h.live| && |h.free| < CHUNKS_CAP
    ensures Inv(Appended(h, k)) <==> BelongsLast(h, h.live[k])
  {
    var c, f, h' := h.live[k], |h.free|, Appended(h, k);
    if BelongsLast(h, c) {
      hide Covers, TotalSize, Ordered, Coalesced, Within;
      AppendOrder(h, k);
      RemoveKeepsOrder(h.live, k);
      RemoveTotal(h.live, k);
      TotalConcat(h.free, [c]);
      TotalOne(c);
      forall a | 0 <= a < ALLOC_CAP ensures Covers(h'.live, a) <==> !Covers(h'.free, a) {
        AppendCovers(h, k, a);
      }
    } else {
      hide TotalSize, Tiles;
      assert h'.free[f] == c && h'.free[f - 1] == h.free[f - 1];
    }
  }

  /** What a call of the unrepaired heap_free on live chunk k comes to. */
  lemma FreeAsWrittenIs(s: State, k: nat)
    requires s.Shape() && Inv(s.View()) && k < s.alloced.size
    ensures var c, a, f, r := s.alloced.slots[k], s.alloced.size, s.freed.size, FreeAsWritten(s, Some(s.alloced.slots[k].ptr));
      if k >= c.size || f == CHUNKS_CAP then r.Some? && !r.value.1.Freed?
      else
        var t := TryToMergeAsWritten(Table(s.freed.slots[f := c], f + 1), a - 1);
        if t.None? then r.None?
        else r == Some((State(EraseAsWritten(s.alloced, k), t.value, s.freeBytes + c.size), Freed))
  {
    hide TryToMergeAsWritten, EraseAsWritten, TotalSize, Tiles;
    var h := s.View();
    assert forall i :: 0 <= i < s.alloced.size ==> s.alloced.slots[i] == h.live[i];
    BoundIs(h.live, h.live[k].ptr, k);
    WalkStays(s.alloced.slots, s.alloced.size - 1);
  }

  lemma MergedTable(s: State, k: nat)
    requires s.Shape() && Inv(s.View()) && k < s.alloced.size && s.freed.size < CHUNKS_CAP
    ensures var c, a, f := s.alloced.slots[k], s.alloced.size, s.freed.size;
      var t := Table(s.freed.slots[f := c], f + 1);
      var r := TryToMergeAsWritten(t, a - 1);
      if a == 1 then r == if f == 0 then Some(t) else None
      else if a == 2 then r == None
      else r.Some? && r.value.slots == t.slots && (if a <= f + 1 then r.value.size == f + 1 else r.value.size > f + 1)
  {
    hide TryToMergeAsWritten, TotalSize, Tiles;
    var h, f := s.View(), s.freed.size;
    var t := Table(s.freed.slots[f := s.alloced.slots[k]], f + 1);
    assert s.alloced.slots[k] == h.live[k];
    assert forall i :: 0 <= i < f ==> t.slots[i] == h.free[i];
    MergeOutcome(t, s.alloced.size);
  }

  /** A freed table of n entries, of which the unrepaired code wrote one, is right only for one more
      entry than before and only if the freed chunk belongs behind all of them. */
  lemma OutcomeWorksIff(s: State, k: nat, n: nat)
    requires s.Shape() && Inv(s.View()) && k < s.alloced.size && s.freed.size < CHUNKS_CAP && s.freed.size < n
    ensures var c := s.alloced.slots[k];
      var r := State(EraseAsWritten(s.alloced, k), Table(s.freed.slots[s.freed.size := c], n), s.freeBytes + c.size);
      r.Shape() && Inv(r.View()) <==> n == s.freed.size + 1 && BelongsLast(s.View(), c)
  {
    hide Inv, EraseAsWritten, BelongsLast;
    var h, c := s.View(), s.alloced.slots[k];
    assert h.live[k] == c;
    ErasedEntries(s.alloced, k);
    if n <= CHUNKS_CAP {
      AppendedEntries(s.freed, c, n);
      if n == s.freed.size + 1 {
        AppendWorksIff(h, k);
      } else {
        NoRoomForMore(h, k, Table(s.freed.slots[s.freed.size := c], n).Entries(), h.freeBytes + c.size);
      }
    }
  }

  /** The unrepaired heap_free frees live chunk k and keeps the partition exactly under the guard. */
  lemma FreeAsWrittenWorksIff(s: State, k: nat)
    requires s.Shape() && Inv(s.View()) && k < s.alloced.size
    ensures FreeWorks(s, s.View().live[k].ptr) <==> FreeGuard(s.View(), k)
  {
    hide Inv, FreeAsWritten, TryToMergeAsWritten, EraseAsWritten;
    var h := s.View();
    var c, a, f := h.live[k], s.alloced.size, s.freed.size;
    assert s.alloced.slots[k] == c;
    FreeAsWrittenIs(s, k);
    if k < c.size && f < CHUNKS_CAP {
      MergedTable(s, k);
      var r := TryToMergeAsWritten(Table(s.freed.slots[f := c], f + 1), a - 1);
      if r.Some? {
        OutcomeWorksIff(s, k, r.value.size);
      }
    }
  }

  lemma ErasedEntries(t: Table, k: nat)
    requires t.Shape() && k < t.size
    ensures var e := EraseAsWritten(t, k); e.Shape() && e.Entries() == t.Entries()[..k] + t.Entries()[k + 1..]
  {
  }

  lemma AppendedEntries(t: Table, c: Chunk, n: nat)
    requires t.Shape() && t.size < n <= CHUNKS_CAP
    ensures var e := Table(t.slots[t.size := c], n).Entries();
      e[..t.size] == t.Entries() && e[t.size] == c && (n == t.size + 1 ==> e == t.Entries() + [c])
  {
  }
}
