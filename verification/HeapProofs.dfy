/** What every sequence of allocator calls keeps. */
module HeapProofs {
  import opened Options
  import opened HeapSpec

  // ----- coverage and size of concatenations

  lemma CoversConcat(s: seq<Chunk>, t: seq<Chunk>, a: int)
    ensures Covers(s + t, a) <==> Covers(s, a) || Covers(t, a)
  {
    if Covers(s, a) {
      var i :| 0 <= i < |s| && s[i].ptr <= a < s[i].End();
      assert (s + t)[i] == s[i];
    }
    if Covers(t, a) {
      var i :| 0 <= i < |t| && t[i].ptr <= a < t[i].End();
      assert (s + t)[|s| + i] == t[i];
    }
  }

  lemma CoversOne(c: Chunk, a: int)
    ensures Covers([c], a) <==> c.ptr <= a < c.End()
  {
    if c.ptr <= a < c.End() {
      assert [c][0] == c;
    }
  }

  /** The coverage of a list with one chunk in the middle. */
  lemma CoversAround(s: seq<Chunk>, c: Chunk, t: seq<Chunk>, a: int)
    ensures Covers(s + [c] + t, a) <==> Covers(s, a) || c.ptr <= a < c.End() || Covers(t, a)
  {
    CoversConcat(s + [c], t, a);
    CoversConcat(s, [c], a);
    CoversOne(c, a);
  }

  lemma {:induction false} TotalConcat(s: seq<Chunk>, t: seq<Chunk>)
    ensures TotalSize(s + t) == TotalSize(s) + TotalSize(t)
  {
    if t == [] {
      assert s + t == s;
    } else {
      assert (s + t)[..|s + t| - 1] == s + t[..|t| - 1];
      TotalConcat(s, t[..|t| - 1]);
    }
  }

  lemma TotalAround(s: seq<Chunk>, c: Chunk, t: seq<Chunk>)
    ensures TotalSize(s + [c] + t) == TotalSize(s) + c.size + TotalSize(t)
  {
    TotalConcat(s + [c], t);
    TotalConcat(s, [c]);
    TotalOne(c);
  }

  lemma TotalOne(c: Chunk)
    ensures TotalSize([c]) == c.size
  {
    assert [c][..0] == [];
  }

  lemma SplitAt(s: seq<Chunk>, i: nat)
    requires i < |s|
    ensures s == s[..i] + [s[i]] + s[i + 1..]
  {
  }

  lemma {:induction false} InsertIs(s: seq<Chunk>, c: Chunk)
    ensures var k := LowerBound(s, c.ptr); Insert(s, c) == s[..k] + [c] + s[k..]
  {
    if s != [] && s[|s| - 1].ptr >= c.ptr {
      var t := s[..|s| - 1];
      InsertIs(t, c);
      var k := LowerBound(t, c.ptr);
      assert t[..k] == s[..k] && t[k..] + [s[|s| - 1]] == s[k..];
    }
  }

  lemma {:induction false} BoundIs(s: seq<Chunk>, p: nat, k: nat)
    requires k <= |s| && (k > 0 ==> s[k - 1].ptr < p)
    requires forall i :: k <= i < |s| ==> s[i].ptr >= p
    ensures LowerBound(s, p) == k
  {
    if k < |s| {
      BoundIs(s[..|s| - 1], p, k);
    }
  }

  /** t is s with c put at index k, and k is where c belongs. */
  lemma InsertedAt(s: seq<Chunk>, c: Chunk, k: nat, t: seq<Chunk>)
    requires k <= |s| && (k > 0 ==> s[k - 1].ptr < c.ptr) && |t| == |s| + 1
    requires forall i :: k <= i < |s| ==> s[i].ptr >= c.ptr
    requires (forall i :: 0 <= i < k ==> t[i] == s[i]) && t[k] == c && (forall i :: k < i < |t| ==> t[i] == s[i - 1])
    ensures t == Insert(s, c) && LowerBound(s, c.ptr) == k
  {
    BoundIs(s, c.ptr, k);
    InsertIs(s, c);
    assert t == s[..k] + [c] + s[k..];
  }

  // ----- taking memory out of the free list

  lemma TakeCovers(s: seq<Chunk>, i: nat, size: nat, a: int)
    requires Ordered(s) && i < |s| && 0 < size <= s[i].size
    ensures Covers(Take(s, i, size), a) <==> Covers(s, a) && !(s[i].ptr <= a < s[i].ptr + size)
  {
    SplitAt(s, i);
    CoversAround(s[..i], s[i], s[i + 1..], a);
    if s[i].size == size {
      CoversConcat(s[..i], s[i + 1..], a);
    } else {
      var c := Chunk(s[i].ptr + size, s[i].size - size);
      assert s[i := c] == s[..i] + [c] + s[i + 1..];
      CoversAround(s[..i], c, s[i + 1..], a);
    }
  }

  lemma TakeTotal(s: seq<Chunk>, i: nat, size: nat)
    requires i < |s| && size <= s[i].size
    ensures TotalSize(Take(s, i, size)) == TotalSize(s) - size
  {
    hide TotalSize;
    SplitAt(s, i);
    TotalAround(s[..i], s[i], s[i + 1..]);
    if s[i].size == size {
      TotalConcat(s[..i], s[i + 1..]);
    } else {
      var c := Chunk(s[i].ptr + size, s[i].size - size);
      assert s[i := c] == s[..i] + [c] + s[i + 1..];
      TotalAround(s[..i], c, s[i + 1..]);
    }
  }

  lemma TakeKeepsOrder(s: seq<Chunk>, i: nat, size: nat)
    requires Ordered(s) && Coalesced(s) && Within(s) && i < |s| && 0 < size <= s[i].size
    ensures var t := Take(s, i, size); Ordered(t) && Coalesced(t) && Within(t) && |t| <= |s|
  {
    var t := Take(s, i, size);
    forall j | 0 <= j < |t| ensures t[j].size > 0 && t[j].End() <= ALLOC_CAP {
      TakeAt(s, i, size, j);
    }
    forall j, k | 0 <= j < k < |t| ensures t[j].End() < t[k].ptr {
      TakeAt(s, i, size, j);
      TakeAt(s, i, size, k);
    }
  }

  lemma TakeAt(s: seq<Chunk>, i: nat, size: nat, j: nat)
    requires i < |s| && size <= s[i].size && j < |Take(s, i, size)|
    ensures Take(s, i, size)[j] ==
            if s[i].size == size then s[if j < i then j else j + 1]
            else if j == i then Chunk(s[i].ptr + size, s[i].size - size) else s[j]
  {
  }

  // ----- putting a chunk among others it does not overlap

  ghost predicate Apart(s: seq<Chunk>, c: Chunk) {
    forall i :: 0 <= i < |s| ==> s[i].End() <= c.ptr || c.End() <= s[i].ptr
  }

  /** A chunk none of whose bytes is covered overlaps nothing. */
  lemma UncoveredIsApart(s: seq<Chunk>, c: Chunk)
    requires Ordered(s) && c.size > 0
    requires forall a :: c.ptr <= a < c.End() ==> !Covers(s, a)
    ensures Apart(s, c)
  {
    forall i | 0 <= i < |s| ensures s[i].End() <= c.ptr || c.End() <= s[i].ptr {
      var a := if s[i].ptr < c.ptr then c.ptr else s[i].ptr;
      assert s[i].ptr <= a < s[i].End() ==> Covers(s, a);
    }
  }

  lemma InsertTotal(s: seq<Chunk>, c: Chunk)
    ensures TotalSize(Insert(s, c)) == TotalSize(s) + c.size
  {
    InsertIs(s, c);
    var k := LowerBound(s, c.ptr);
    assert s == s[..k] + s[k..];
    TotalConcat(s[..k], s[k..]);
    TotalAround(s[..k], c, s[k..]);
  }

  lemma InsertAt(s: seq<Chunk>, c: Chunk, i: nat)
    requires i <= |s|
    ensures var t, k := Insert(s, c), LowerBound(s, c.ptr);
      t[i] == if i < k then s[i] else if i == k then c else s[i - 1]
  {
    InsertIs(s, c);
  }

  lemma InsertKeepsOrder(s: seq<Chunk>, c: Chunk)
    requires Ordered(s) && Within(s) && Apart(s, c) && c.size > 0 && c.End() <= ALLOC_CAP
    ensures Ordered(Insert(s, c)) && Within(Insert(s, c))
  {
    hide Insert, LowerBound;
    var t := Insert(s, c);
    forall i | 0 <= i < |t| ensures t[i].size > 0 && t[i].End() <= ALLOC_CAP {
      InsertAt(s, c, i);
    }
    forall i, j | 0 <= i < j < |t| ensures t[i].End() <= t[j].ptr {
      InsertAt(s, c, i);
      InsertAt(s, c, j);
    }
  }

  lemma InsertCovers(s: seq<Chunk>, c: Chunk, a: int)
    ensures Covers(Insert(s, c), a) <==> Covers(s, a) || c.ptr <= a < c.End()
  {
    InsertIs(s, c);
    var k := LowerBound(s, c.ptr);
    assert s == s[..k] + s[k..];
    CoversConcat(s[..k], s[k..], a);
    CoversAround(s[..k], c, s[k..], a);
  }

  // ----- allocation

  /** Every allocation keeps the partition, whether it succeeds or not. */
  lemma AllocKeepsInv(h: Heap, size: nat)
    requires Inv(h)
    ensures Inv(Alloc(h, size).0)
  {
    var (h', r) := Alloc(h, size);
    if r.Some? {
      var i := FirstFit(h.free, size).value;
      var c := Chunk(r.value, size);
      FreeBytesAreNotLive(h, i);
      UncoveredIsApart(h.live, c);
      InsertKeepsOrder(h.live, c);
      InsertTotal(h.live, c);
      TakeKeepsOrder(h.free, i, size);
      TakeTotal(h.free, i, size);
      forall a | 0 <= a < ALLOC_CAP ensures Covers(h'.live, a) <==> !Covers(h'.free, a) {
        InsertCovers(h.live, c, a);
        TakeCovers(h.free, i, size, a);
        if c.ptr <= a < c.End() {
          assert !Covers(h.live, a);
        }
      }
    }
  }

  lemma FreeBytesAreNotLive(h: Heap, i: nat)
    requires Inv(h) && i < |h.free|
    ensures forall a :: h.free[i].ptr <= a < h.free[i].End() ==> !Covers(h.live, a)
  {
    forall a | h.free[i].ptr <= a < h.free[i].End() ensures !Covers(h.live, a) {
      assert Covers(h.free, a);
    }
  }

  // ----- coalescing

  /** Consecutive chunks touch at most at left and left + 1, and at left + 1 only if at left. */
  ghost predicate TouchingOnlyAt(s: seq<Chunk>, left: nat) {
    && (forall i: nat :: i + 1 < |s| && i != left && i != left + 1 ==> !Touching(s, i))
    && (left + 2 < |s| && Touching(s, left + 1) ==> Touching(s, left))
  }

  /** The list after the chunk at left has swallowed its successor. */
  function Merged(s: seq<Chunk>, left: nat): (t: seq<Chunk>)
    requires left + 1 < |s|
    ensures |t| == |s| - 1
    ensures forall i :: 0 <= i < |t| && i != left ==> t[i] == s[if i < left then i else i + 1]
    ensures t[left] == Chunk(s[left].ptr, s[left].size + s[left + 1].size)
  {
    s[..left] + [Chunk(s[left].ptr, s[left].size + s[left + 1].size)] + s[left + 2..]
  }

  lemma MergedOrder(s: seq<Chunk>, left: nat)
    requires Ordered(s) && Within(s) && left + 1 < |s| && Touching(s, left)
    ensures Ordered(Merged(s, left)) && Within(Merged(s, left))
  {
  }

  lemma MergedTouching(s: seq<Chunk>, left: nat)
    requires left + 1 < |s| && Touching(s, left) && TouchingOnlyAt(s, left)
    ensures TouchingOnlyAt(Merged(s, left), left)
  {
    var t := Merged(s, left);
    forall i: nat | i + 1 < |t| && i != left ensures !Touching(t, i) {
      assert !Touching(s, if i < left then i else i + 1);
    }
  }

  lemma {:induction false} MergeRunCoalesces(s: seq<Chunk>, left: nat)
    requires Ordered(s) && Within(s) && left < |s| && TouchingOnlyAt(s, left)
    ensures var t := MergeRun(s, left); Ordered(t) && Within(t) && Coalesced(t) && |t| <= |s|
    decreases |s|
  {
    if left + 1 < |s| && Touching(s, left) {
      hide Ordered, Within, Coalesced, TouchingOnlyAt;
      MergedOrder(s, left);
      MergedTouching(s, left);
      MergeRunCoalesces(Merged(s, left), left);
    } else {
      forall i, j | 0 <= i < j < |s| ensures s[i].End() < s[j].ptr {
        assert !Touching(s, i);
        assert s[i + 1].ptr <= s[j].ptr;
      }
    }
  }

  lemma {:induction false} MergeRunTotal(s: seq<Chunk>, left: nat)
    requires left < |s|
    ensures TotalSize(MergeRun(s, left)) == TotalSize(s)
    decreases |s|
  {
    if left + 1 < |s| && Touching(s, left) {
      hide TotalSize;
      MergedTotal(s, left);
      MergeRunTotal(Merged(s, left), left);
    }
  }

  lemma SplitTwo(s: seq<Chunk>, i: nat)
    requires i + 1 < |s|
    ensures s == s[..i] + [s[i]] + [s[i + 1]] + s[i + 2..]
  {
  }

  lemma MergedTotal(s: seq<Chunk>, left: nat)
    requires left + 1 < |s|
    ensures TotalSize(Merged(s, left)) == TotalSize(s)
  {
    hide TotalSize;
    var x, a, b, y := s[..left], s[left], s[left + 1], s[left + 2..];
    assert TotalSize(s) == TotalSize(x + [a] + [b] + y) by { SplitTwo(s, left); }
    assert TotalSize(Merged(s, left)) == TotalSize(x + [Chunk(a.ptr, a.size + b.size)] + y);
    TotalPair(x, a, b, y);
  }

  lemma TotalPair(x: seq<Chunk>, a: Chunk, b: Chunk, y: seq<Chunk>)
    ensures TotalSize(x + [Chunk(a.ptr, a.size + b.size)] + y) == TotalSize(x + [a] + [b] + y)
  {
    hide TotalSize;
    TotalAround(x, Chunk(a.ptr, a.size + b.size), y);
    TotalAround(x + [a], b, y);
    TotalConcat(x, [a]);
    TotalOne(a);
  }

  lemma {:induction false} MergeRunCovers(s: seq<Chunk>, left: nat, a: int)
    requires left < |s|
    ensures Covers(MergeRun(s, left), a) <==> Covers(s, a)
    decreases |s|
  {
    if left + 1 < |s| && Touching(s, left) {
      hide Covers;
      var x, b, c, y := s[..left], s[left], s[left + 1], s[left + 2..];
      MergeRunCovers(Merged(s, left), left, a);
      CoversAround(x, Chunk(b.ptr, b.size + c.size), y, a);
      assert s == x + [b] + ([c] + y);
      CoversAround(x, b, [c] + y, a);
      CoversConcat([c], y, a);
      CoversOne(c, a);
    }
  }

  // ----- freeing

  lemma JoinTotal(free: seq<Chunk>, c: Chunk)
    ensures TotalSize(Join(free, c)) == TotalSize(free) + c.size
  {
    InsertIs(free, c);
    InsertTotal(free, c);
    var s, pos := Insert(free, c), LowerBound(free, c.ptr);
    MergeRunTotal(s, if pos > 0 && Touching(s, pos - 1) then pos - 1 else pos);
  }

  lemma InsertTouching(free: seq<Chunk>, c: Chunk)
    requires Coalesced(free)
    ensures var s, pos := Insert(free, c), LowerBound(free, c.ptr);
      TouchingOnlyAt(s, if pos > 0 && Touching(s, pos - 1) then pos - 1 else pos)
  {
    hide Insert, LowerBound, Coalesced, Touching;
    var s, pos := Insert(free, c), LowerBound(free, c.ptr);
    forall i: nat | i + 1 < |s| && i != pos && i + 1 != pos ensures !Touching(s, i) {
      StillApart(free, c, i);
    }
    if pos > 0 && Touching(s, pos - 1) {
      assert TouchingOnlyAt(s, pos - 1);
    } else {
      assert TouchingOnlyAt(s, pos);
    }
  }

  lemma StillApart(free: seq<Chunk>, c: Chunk, i: nat)
    requires Coalesced(free) && i < |free|
    requires i != LowerBound(free, c.ptr) && i + 1 != LowerBound(free, c.ptr)
    ensures !Touching(Insert(free, c), i)
  {
    hide Insert, LowerBound;
    InsertAt(free, c, i);
    InsertAt(free, c, i + 1);
  }

  lemma JoinKeepsOrder(free: seq<Chunk>, c: Chunk)
    requires Ordered(free) && Coalesced(free) && Within(free) && Apart(free, c)
    requires c.size > 0 && c.End() <= ALLOC_CAP
    ensures var t := Join(free, c); Ordered(t) && Within(t) && Coalesced(t) && |t| <= |free| + 1
  {
    hide Ordered, Coalesced, Within, Apart, TouchingOnlyAt, MergeRun;
    InsertKeepsOrder(free, c);
    InsertTouching(free, c);
    var s, pos := Insert(free, c), LowerBound(free, c.ptr);
    MergeRunCoalesces(s, if pos > 0 && Touching(s, pos - 1) then pos - 1 else pos);
  }

  lemma JoinCovers(free: seq<Chunk>, c: Chunk, a: int)
    ensures Covers(Join(free, c), a) <==> Covers(free, a) || c.ptr <= a < c.End()
  {
    InsertIs(free, c);
    var s, pos := Insert(free, c), LowerBound(free, c.ptr);
    InsertCovers(free, c, a);
    MergeRunCovers(s, if pos > 0 && Touching(s, pos - 1) then pos - 1 else pos, a);
  }

  lemma LiveBytesAreNotFree(h: Heap, k: nat)
    requires Inv(h) && k < |h.live|
    ensures Apart(h.free, h.live[k])
  {
    forall a | h.live[k].ptr <= a < h.live[k].End() ensures !Covers(h.free, a) {
      assert Covers(h.live, a);
    }
    UncoveredIsApart(h.free, h.live[k]);
  }

  lemma RemoveCovers(s: seq<Chunk>, k: nat, a: int)
    requires Ordered(s) && k < |s|
    ensures Covers(s[..k] + s[k + 1..], a) <==> Covers(s, a) && !(s[k].ptr <= a < s[k].End())
  {
    SplitAt(s, k);
    CoversAround(s[..k], s[k], s[k + 1..], a);
    CoversConcat(s[..k], s[k + 1..], a);
  }

  /** Every call to free keeps the partition, whatever the argument. */
  lemma FreeKeepsInv(h: Heap, p: Option<nat>)
    requires Inv(h)
    ensures Inv(Free(h, p).0)
  {
    if Free(h, p).1.Freed? {
      FreedChunk(h, LowerBound(h.live, p.value));
    }
  }

  /** Moving live chunk k to the free list keeps the partition. */
  lemma FreedChunk(h: Heap, k: nat)
    requires Inv(h) && k < |h.live| && |h.free| < CHUNKS_CAP
    ensures Inv(Heap(h.live[..k] + h.live[k + 1..], Join(h.free, h.live[k]), h.freeBytes + h.live[k].size))
  {
    var live, free, c := h.live[..k] + h.live[k + 1..], Join(h.free, h.live[k]), h.live[k];
    hide Covers, MergeRun, TotalSize, Insert, Join, LowerBound;
    LiveBytesAreNotFree(h, k);
    JoinKeepsOrder(h.free, c);
    JoinTotal(h.free, c);
    RemoveTotal(h.live, k);
    RemoveKeepsOrder(h.live, k);
    FreedCovers(h, k);
  }

  lemma FreedCovers(h: Heap, k: nat)
    requires Inv(h) && k < |h.live|
    ensures forall a :: 0 <= a < ALLOC_CAP ==>
              (Covers(h.live[..k] + h.live[k + 1..], a) <==> !Covers(Join(h.free, h.live[k]), a))
  {
    forall a | 0 <= a < ALLOC_CAP
      ensures Covers(h.live[..k] + h.live[k + 1..], a) <==> !Covers(Join(h.free, h.live[k]), a)
    {
      hide MergeRun, TotalSize, Insert, Join, LowerBound;
      RemoveCovers(h.live, k, a);
      JoinCovers(h.free, h.live[k], a);
    }
  }

  lemma RemoveTotal(s: seq<Chunk>, k: nat)
    requires k < |s|
    ensures TotalSize(s[..k] + s[k + 1..]) == TotalSize(s) - s[k].size
  {
    SplitAt(s, k);
    TotalAround(s[..k], s[k], s[k + 1..]);
    TotalConcat(s[..k], s[k + 1..]);
  }

  lemma RemoveKeepsOrder(s: seq<Chunk>, k: nat)
    requires Ordered(s) && Within(s) && k < |s|
    ensures Ordered(s[..k] + s[k + 1..]) && Within(s[..k] + s[k + 1..])
  {
    var t := s[..k] + s[k + 1..];
    assert forall j :: 0 <= j < |t| ==> t[j] == s[if j < k then j else j + 1];
  }

  // ----- the initial heap

  lemma InitialInv()
    ensures Inv(INITIAL)
  {
    TotalOne(Chunk(0, ALLOC_CAP));
    forall a | 0 <= a < ALLOC_CAP ensures Covers(INITIAL.free, a) {
      CoversOne(Chunk(0, ALLOC_CAP), a);
    }
  }
}
