/** The kernel heap of src/lib/kmalloc.cc, and what its own test does to it. */
module KernelHeap {
  import opened Common
  import opened Tiles
  import opened HeapTiles
  import opened Heap

  const HEAP_START := 0xD0000000
  const HEAP_END := 0xD1000000

  const ALL := Tile(HEAP_END - HEAP_START - 4, false)
  const REST := Tile(ALL.size - 5562, false)

  function Used(size: nat): Tile {
    Tile(size, true)
  }

  function Unused(size: nat): Tile {
    Tile(size, false)
  }

  /** The heap while the test's first round has taken its three blocks, and after it has freed them. */
  const TAKEN := [Used(50), Used(500), Used(5000), REST]
  const RELEASED := [Unused(50), Unused(500), Unused(5004 + REST.size)]

  lemma ServedAt(tiles: seq<Tile>, size: nat, i: nat)
    requires NoFit(tiles, size, i) && i < |tiles| && Fits(tiles[i], size)
    ensures FirstFit(tiles, size) == Some(i) && Served(tiles, Request.Alloc(size)) == Taken(tiles, i, size)
  {
    FirstFitIs(tiles, size, i);
  }

  /** The requests of the test's first round. */
  lemma FirstRequests()
    ensures Served([ALL], Request.Alloc(50)) == [Used(50), Unused(ALL.size - 54)]
    ensures Served([Used(50), Unused(ALL.size - 54)], Request.Alloc(500)) ==
              [Used(50), Used(500), Unused(ALL.size - 558)]
    ensures Served([Used(50), Used(500), Unused(ALL.size - 558)], Request.Alloc(5000)) == TAKEN
    ensures FirstFit([ALL], 50) == Some(0) && FirstFit([Used(50), Unused(ALL.size - 54)], 500) == Some(1)
    ensures FirstFit([Used(50), Used(500), Unused(ALL.size - 558)], 5000) == Some(2)
  {
    var a, b, c := [ALL], [Used(50), Unused(ALL.size - 54)], [Used(50), Used(500), Unused(ALL.size - 558)];
    ServedAt(a, 50, 0);
    ServedAt(b, 500, 1);
    ServedAt(c, 5000, 2);
    assert Taken(b, 1, 500) == [b[0]] + Pieces(b[1], 500) + [];
    assert Taken(c, 2, 5000) == [c[0], c[1]] + Pieces(c[2], 5000) + [];
  }

  /** The test frees its blocks first to last: only the last one finds a free block behind it. */
  lemma FirstReleases()
    ensures var a := [Unused(50), Used(500), Used(5000), REST];
      var b := [Unused(50), Unused(500), Used(5000), REST];
      && Served(TAKEN, Request.Free(0)) == a && Span(a[..1]) == 54
      && Served(a, Request.Free(1)) == b && Span(b[..2]) == 558
      && Served(b, Request.Free(2)) == RELEASED
    ensures FirstFit(RELEASED, 50) == Some(0) && Overruns(RELEASED, 0, 50) && Span(RELEASED[..0]) == 0
  {
    var a, b := [Unused(50), Used(500), Used(5000), REST], [Unused(50), Unused(500), Used(5000), REST];
    assert a[..1] == [Unused(50)] && b[..2] == [Unused(50), Unused(500)];
    SpanOne(Unused(50));
    SpanTwo(Unused(50), Unused(500));
    FirstFitIs(RELEASED, 50, 0);
  }

  lemma SpanTaken()
    ensures Span([ALL][..0]) == 0 && Span([Used(50), Unused(ALL.size - 54)][..1]) == 54
    ensures Span([Used(50), Used(500), Unused(ALL.size - 558)][..2]) == 558
    ensures Span(TAKEN[..0]) == 0 && Span(TAKEN[..1]) == 54 && Span(TAKEN[..2]) == 558
  {
    assert [Used(50), Unused(ALL.size - 54)][..1] == [Used(50)] == TAKEN[..1];
    assert [Used(50), Used(500), Unused(ALL.size - 558)][..2] == [Used(50), Used(500)] == TAKEN[..2];
    SpanOne(Used(50));
    SpanTwo(Used(50), Used(500));
  }

  /** The three requests of a round of test_kmalloc on a heap that is one free block. */
  method TakeThree(heap: ImplicitListAllocator) returns (p1: nat, p2: nat, p3: nat)
    requires heap.Valid() && heap.tiles == [ALL] && heap.mstart == HEAP_START && heap.mend == HEAP_END
    modifies heap`tiles, heap.mem
    ensures heap.Valid() && heap.tiles == TAKEN
    ensures p1 == 0xD0000004 && p2 == 0xD000003A && p3 == 0xD0000232
  {
    hide Span, IsHeap, Served, FirstFit, TakeMemory, Untileable;
    FirstRequests();
    SpanTaken();
    p1 := heap.Alloc(50);
    p2 := heap.Alloc(500);
    p3 := heap.Alloc(5000);
  }

  /** The test's releases, in the order of the requests. */
  method FreeThree(heap: ImplicitListAllocator, p1: nat, p2: nat, p3: nat)
    requires heap.Valid() && heap.tiles == TAKEN && heap.mstart == HEAP_START && heap.mend == HEAP_END
    requires p1 == 0xD0000004 && p2 == 0xD000003A && p3 == 0xD0000232
    modifies heap`tiles, heap.mem
    ensures heap.Valid() && heap.tiles == RELEASED
  {
    hide Span, IsHeap, Served, FreeMemory;
    FirstReleases();
    SpanTaken();
    heap.Free(p1, 0);
    heap.Free(p2, 1);
    heap.Free(p3, 2);
  }

  /**
   * test_kmalloc up to the first request of its second round: the first round goes as the test
   * expects, and the next request destroys the heap.
   */
  method TestKmalloc(memory: array<Byte>) returns (heap: ImplicitListAllocator, p: nat)
    requires HEAP_END + 4 <= memory.Length <= WORD
    modifies memory
    ensures heap.mem == memory && p == 0xD0000004
    ensures Untileable(memory[..], HEAP_START, HEAP_END)
  {
    hide Span, IsHeap, Served, FirstFit, TakeMemory, Untileable;
    heap := new ImplicitListAllocator(memory, HEAP_START, HEAP_END);
    var p1, p2, p3 := TakeThree(heap);
    FreeThree(heap, p1, p2, p3);
    FirstReleases();
    p := heap.Alloc(50);
  }
}
