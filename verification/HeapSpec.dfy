/** The heap allocator's state as values, what each call does to it, and what every call keeps. */
module HeapSpec {
  import opened Options

  const ALLOC_CAP: nat := 1024 * 1024 * 2
  const CHUNKS_CAP: nat := 1024

  /** A stretch of the heap; ptr is an offset from the heap's first byte. */
  datatype Chunk = Chunk(ptr: nat, size: nat) {
    function End(): nat { ptr + size }
  }

  datatype Heap = Heap(live: seq<Chunk>, free: seq<Chunk>, freeBytes: nat)

  const INITIAL := Heap([], [Chunk(0, ALLOC_CAP)], ALLOC_CAP)

  // ----- the invariant

  /** In address order, no two overlapping, none empty. */
  ghost predicate Ordered(s: seq<Chunk>) {
    && (forall i :: 0 <= i < |s| ==> s[i].size > 0)
    && (forall i, j :: 0 <= i < j < |s| ==> s[i].End() <= s[j].ptr)
  }

  /** No chunk touches the next one. */
  ghost predicate Coalesced(s: seq<Chunk>) {
    forall i, j :: 0 <= i < j < |s| ==> s[i].End() < s[j].ptr
  }

  ghost predicate Covers(s: seq<Chunk>, a: int) {
    exists i :: 0 <= i < |s| && s[i].ptr <= a < s[i].End()
  }

  ghost predicate Within(s: seq<Chunk>) {
    forall i :: 0 <= i < |s| ==> s[i].End() <= ALLOC_CAP
  }

  /** Every byte of the heap belongs to a live chunk or to a free one, and not to both. */
  ghost predicate Tiles(live: seq<Chunk>, free: seq<Chunk>) {
    && Within(live) && Within(free)
    && forall a :: 0 <= a < ALLOC_CAP ==> (Covers(live, a) <==> !Covers(free, a))
  }

  function TotalSize(s: seq<Chunk>): nat {
    if s == [] then 0 else TotalSize(s[..|s| - 1]) + s[|s| - 1].size
  }

  ghost predicate Inv(h: Heap) {
    && Ordered(h.live) && Ordered(h.free) && Coalesced(h.free)
    && Tiles(h.live, h.free)
    && h.freeBytes == TotalSize(h.free)
    && TotalSize(h.live) + TotalSize(h.free) == ALLOC_CAP
    && |h.live| <= CHUNKS_CAP && |h.free| <= CHUNKS_CAP
  }

  // ----- the calls

  /** c goes behind every chunk with a smaller address. */
  function Insert(s: seq<Chunk>, c: Chunk): (r: seq<Chunk>)
    ensures |r| == |s| + 1
  {
    if s == [] || s[|s| - 1].ptr < c.ptr then s + [c]
    else Insert(s[..|s| - 1], c) + [s[|s| - 1]]
  }

  /** The first chunk of at least this size. */
  function FirstFit(s: seq<Chunk>, size: nat): (r: Option<nat>)
    ensures r.Some? ==> r.value < |s| && s[r.value].size >= size && forall i :: 0 <= i < r.value ==> s[i].size < size
    ensures r.None? ==> forall i :: 0 <= i < |s| ==> s[i].size < size
  {
    if s == [] then None
    else
      var r := FirstFit(s[..|s| - 1], size);
      if r.Some? then r
      else if s[|s| - 1].size >= size then Some(|s| - 1)
      else None
  }

  /** The list after taking size bytes from the front of chunk i. */
  function Take(s: seq<Chunk>, i: nat, size: nat): seq<Chunk>
    requires i < |s| && size <= s[i].size
  {
    if s[i].size == size then s[..i] + s[i + 1..]
    else s[i := Chunk(s[i].ptr + size, s[i].size - size)]
  }

  /** The heap after a request for size bytes, and the address handed out. */
  function Alloc(h: Heap, size: nat): (Heap, Option<nat>)
    requires h.freeBytes == TotalSize(h.free)
  {
    if |h.live| == CHUNKS_CAP || size == 0 || size > h.freeBytes then (h, None)
    else
      match FirstFit(h.free, size)
      case None => (h, None)
      case Some(i) =>
        var p := h.free[i].ptr;
        (Heap(Insert(h.live, Chunk(p, size)), Take(h.free, i, size), h.freeBytes - size), Some(p))
  }

  datatype FreeResult = Freed | NullPointer | InvalidArgument | Fragmentation

  /** The number of chunks before the first one at address p or above. */
  function LowerBound(s: seq<Chunk>, p: nat): (k: nat)
    ensures k <= |s|
    ensures k > 0 ==> s[k - 1].ptr < p
    ensures forall i :: k <= i < |s| ==> s[i].ptr >= p
  {
    if s == [] || s[|s| - 1].ptr < p then |s|
    else LowerBound(s[..|s| - 1], p)
  }

  predicate Touching(s: seq<Chunk>, i: nat)
    requires i + 1 < |s|
  {
    s[i].End() == s[i + 1].ptr
  }

  /** The chunk at left swallows its successors for as long as they touch. */
  function MergeRun(s: seq<Chunk>, left: nat): seq<Chunk>
    requires left < |s|
    decreases |s|
  {
    if left + 1 < |s| && Touching(s, left)
    then MergeRun(s[..left] + [Chunk(s[left].ptr, s[left].size + s[left + 1].size)] + s[left + 2..], left)
    else s
  }

  /** The free list after chunk c joins it. */
  function Join(free: seq<Chunk>, c: Chunk): seq<Chunk> {
    var s, pos := Insert(free, c), LowerBound(free, c.ptr);
    MergeRun(s, if pos > 0 && Touching(s, pos - 1) then pos - 1 else pos)
  }

  function Free(h: Heap, p: Option<nat>): (Heap, FreeResult) {
    if p.None? then (h, NullPointer)
    else
      var k := LowerBound(h.live, p.value);
      if k >= |h.live| || h.live[k].ptr != p.value then (h, InvalidArgument)
      else if |h.free| == CHUNKS_CAP then (h, Fragmentation)
      else (Heap(h.live[..k] + h.live[k + 1..], Join(h.free, h.live[k]), h.freeBytes + h.live[k].size), Freed)
  }
}
