/** The implicit-list allocator of src/include/ILAllocator.hpp over byte memory. */
module Heap {
  import opened Common
  import opened Tiles
  import opened HeapTiles

  /** What alloc leaves behind: null and no change, or the first fitting tile taken. */
  ghost predicate Allocated(s: seq<Byte>, s': seq<Byte>, start: nat, end: nat, tiles: seq<Tile>, size: nat, p: nat) {
    match FirstFit(tiles, size)
    case None => p == 0 && s' == s
    case Some(i) =>
      && i < |tiles| && Fits(tiles[i], size) && p == start + Span(tiles[..i]) + 4
      && tiles[i].Valid() && p + tiles[i].size + 4 <= |s| && s' == TakeMemory(s, p - 4, tiles[i].size, size)
  }

  /** The request is answered without overrunning a tile. */
  ghost predicate Safe(tiles: seq<Tile>, size: nat) {
    match FirstFit(tiles, size)
    case None => true
    case Some(i) => i < |tiles| && Fits(tiles[i], size) && !Overruns(tiles, i, size)
  }

  class ImplicitListAllocator {
    const mem: array<Byte>
    var mstart: nat
    var mend: nat

    ghost var tiles: seq<Tile>

    ghost predicate Valid()
      reads this, mem
    {
      IsHeap(mem[..], mstart, mend, tiles)
    }

    constructor (memory: array<Byte>, start: nat, end: nat)
      requires start + 4 <= end && end + 4 <= memory.Length <= WORD && (end - start) % 2 == 0
      modifies memory
      ensures mem == memory && mstart == start && mend == end
      ensures Valid() && tiles == [Tile(end - start - 4, false)]
    {
      mem, mstart, mend := memory, start, end;
      tiles := [Tile(end - start - 4, false)];
      new;
      Record(start, end - start - 4, 0);
      TiledOne(mem[..], start, Tile(end - start - 4, false));
    }

    /** Stores a header: the allocated bit joins an even size. */
    method Record(block: nat, size: nat, state: nat)
      requires block + 4 <= mem.Length && size < WORD && state < 2
      modifies mem
      ensures mem[..] == Store(old(mem[..]), block, if size % 2 == 1 then size else size + state)
    {
      var w := if size % 2 == 1 then size else size + state;
      var b := Bytes(w);
      ghost var before := mem[..];
      mem[block] := b[0];
      mem[block + 1] := b[1];
      mem[block + 2] := b[2];
      mem[block + 3] := b[3];
      assert mem[..] == before[..block] + b + before[block + 4..];
    }

    function HeaderAt(block: nat): (w: nat)
      requires block + 4 <= mem.Length
      reads mem
    {
      Word(mem[..], block)
    }

    function SizeOfBlock(block: nat): (size: nat)
      requires block + 4 <= mem.Length
      reads mem
    {
      HeaderAt(block) - HeaderAt(block) % 2
    }

    predicate IsAllocated(block: nat)
      requires block + 4 <= mem.Length
      reads mem
    {
      HeaderAt(block) % 2 == 1
    }

    function NextBlock(block: nat): (next: nat)
      requires block + 4 <= mem.Length
      reads mem
    {
      (block + SizeOfBlock(block) + 4) % WORD
    }

    /** The writes of alloc once it has found its block. */
    method Take(cur: nat, blockSize: nat, size: nat)
      requires size <= blockSize < WORD - 1 && cur + 4 + blockSize + 4 <= mem.Length
      requires size % 2 == 0 && blockSize % 2 == 0
      modifies mem
      ensures mem[..] == TakeMemory(old(mem[..]), cur, blockSize, size)
    {
      hide Store;
      var remain := cur + size + 4;
      var remainSize := (blockSize - 4 - size) % WORD;
      if remainSize > 0 {
        Record(cur, size, 1);
        Record(remain, remainSize, 0);
      } else {
        Record(cur, blockSize, 1);
      }
    }

    /**
     * alloc. Null comes back exactly when no free block is large enough. Otherwise the lowest such
     * block is taken, and the heap is as it should be exactly when the request does not overrun it;
     * else nothing in memory is a heap any more.
     */
    method Alloc(request: nat) returns (p: nat)
      requires Valid() && request < WORD
      modifies this`tiles, mem
      ensures Allocated(old(mem[..]), mem[..], mstart, mend, old(tiles), Rounded(request), p)
      ensures Safe(old(tiles), Rounded(request)) ==>
                Valid() && tiles == Served(old(tiles), Request.Alloc(Rounded(request)))
      ensures Safe(old(tiles), Rounded(request)) && p != 0 && request != 0xFFFFFFFF ==>
                Granted(mstart, tiles, p, request)
      ensures !Safe(old(tiles), Rounded(request)) ==> tiles == old(tiles) && Untileable(mem[..], mstart, mend)
    {
      hide Tiled, Span, Word, Store, TakeMemory, Untileable, IsHeap, Around, NoFit, Taken, Granted;
      var size := Rounded(request);
      RoundedCovers(request);
      var cur := mstart;
      ghost var s, k := mem[..], 0;
      HeapStart(s, mstart, mend, tiles, size);
      while cur != mend
        invariant k <= |tiles| && cur == mstart + Span(tiles[..k]) && NoFit(tiles, size, k)
        invariant cur == mend <==> k == |tiles|
        invariant mem[..] == s && tiles == old(tiles) && IsHeap(s, mstart, mend, tiles)
        decreases |tiles| - k
      {
        ghost var next := HeapWalk(s, mstart, mend, tiles, size, k, cur);
        var blockSize := SizeOfBlock(cur);
        if blockSize >= size && !IsAllocated(cur) {
          TakeFirst(s, mstart, mend, tiles, size, k, cur, next);
          Take(cur, blockSize, size);
          if !Overruns(tiles, k, size) {
            GrantedTaken(mstart, tiles, k, size, request);
            tiles := Taken(tiles, k, size);
          }
          return cur + 4;
        }
        cur := NextBlock(cur);
        k := k + 1;
      }
      HeapEnd(s, mstart, mend, tiles, size, k);
      return 0;
    }

    /**
     * free of the block at tile i. The heap is as it should be unless the block is the last one and
     * the word beyond the heap is neither odd nor 2^32 - 4.
     */
    method Free(p: nat, ghost i: nat)
      requires Valid() && i < |tiles| && p == mstart + Span(tiles[..i]) + 4
      modifies this`tiles, mem
      ensures tiles == Served(old(tiles), Request.Free(i))
      ensures p - 4 + 8 + old(tiles)[i].size <= mem.Length && old(tiles)[i].Valid()
      ensures mem[..] == FreeMemory(old(mem[..]), p - 4, old(tiles)[i].size)
      ensures mend + 4 <= mem.Length
      ensures Valid() <==> i + 1 < |old(tiles)| || old(HeaderAt(mend)) % 2 == 1 || old(HeaderAt(mend)) == WORD - 4
    {
      hide Tiled, Span, Word, Store, FreeMemory, IsHeap, Around, Freed;
      var block := p - 4;
      ghost var s := mem[..];
      ghost var cur, next := HeapTile(s, mstart, mend, tiles, i);
      FreeOutcome(s, mstart, mend, tiles, i, cur, next);
      FreeWrites(s, block, tiles[i].size);
      var size := SizeOfBlock(block);
      if !IsAllocated(NextBlock(block)) {
        var newSize := (size + 4 + SizeOfBlock(NextBlock(block))) % WORD;
        Record(block, newSize, 0);
      } else {
        Record(block, size, 0);
      }
      tiles := Freed(tiles, i);
    }

    /** A client's write into the payload of a block. */
    method Write(ghost i: nat, a: nat, b: Byte)
      requires Valid() && i < |tiles|
      requires mstart + Span(tiles[..i]) + 4 <= a < mstart + Span(tiles[..i]) + 4 + tiles[i].size
      modifies mem
      ensures Valid() && a < mem.Length && mem[..] == old(mem[..])[a := b]
    {
      hide Tiled, Span, Word, IsHeap, Around;
      ghost var s := mem[..];
      ghost var cur, next := HeapTile(s, mstart, mend, tiles, i);
      PayloadWrite(s, mstart, mend, tiles, i, cur, next, a, b);
      mem[a] := b;
      assert mem[..] == s[a := b];
    }
  }

  lemma GrantedTaken(start: nat, tiles: seq<Tile>, k: nat, size: nat, request: nat)
    requires k < |tiles| && tiles[k].size >= size
    ensures size >= request ==> Granted(start, Taken(tiles, k, size), start + Span(tiles[..k]) + 4, request)
  {
    hide Span;
    TakenIsUsed(tiles, k, size);
    var after := Taken(tiles, k, size);
    assert after[k].used;
  }

  lemma HeapStart(s: seq<Byte>, at: nat, end: nat, tiles: seq<Tile>, size: nat)
    requires IsHeap(s, at, end, tiles)
    ensures at == at + Span(tiles[..0]) && NoFit(tiles, size, 0) && (at == end <==> |tiles| == 0)
  {
  }

  /** What the walk of alloc reads at tile k, and where it goes from there. */
  lemma HeapWalk(s: seq<Byte>, at: nat, end: nat, tiles: seq<Tile>, size: nat, k: nat, cur: nat) returns (next: nat)
    requires IsHeap(s, at, end, tiles) && NoFit(tiles, size, k) && k < |tiles| && cur == at + Span(tiles[..k])
    ensures Around(s, at, end, tiles, k, cur, next) && next == at + Span(tiles[..k + 1])
    ensures next == end <==> k + 1 == |tiles|
    ensures cur + 4 <= |s| && Word(s, cur) == tiles[k].Header() && tiles[k].Valid()
    ensures next == cur + 4 + tiles[k].size < WORD && next + 4 <= |s|
    ensures !Fits(tiles[k], size) ==> NoFit(tiles, size, k + 1)
  {
    hide Tiled, Span, Word;
    var c, n := TileAt(s, at, end, tiles, k);
    next := n;
    SpanZero(tiles[k + 1..]);
  }

  lemma SpanZero(tiles: seq<Tile>)
    ensures Span(tiles) == 0 <==> tiles == []
  {
  }

  lemma HeapTile(s: seq<Byte>, at: nat, end: nat, tiles: seq<Tile>, i: nat) returns (cur: nat, next: nat)
    requires IsHeap(s, at, end, tiles) && i < |tiles|
    ensures Around(s, at, end, tiles, i, cur, next) && cur == at + Span(tiles[..i])
    ensures cur + 4 <= |s| && Word(s, cur) == tiles[i].Header() && tiles[i].Valid()
    ensures next == cur + 4 + tiles[i].size < WORD && next + 4 <= |s| && next <= end && end + 4 <= |s| <= WORD
  {
    hide Tiled, Span, Word;
    cur, next := TileAt(s, at, end, tiles, i);
  }

  /** The heap after the writes into the first tile that fits. */
  lemma TakeFirst(s: seq<Byte>, at: nat, end: nat, tiles: seq<Tile>, size: nat, k: nat, cur: nat, next: nat)
    requires NoFit(tiles, size, k) && Around(s, at, end, tiles, k, cur, next) && Fits(tiles[k], size) && size % 2 == 0
    ensures FirstFit(tiles, size) == Some(k) && cur == at + Span(tiles[..k])
    ensures var s' := TakeMemory(s, cur, tiles[k].size, size);
      if Overruns(tiles, k, size) then Untileable(s', at, end) else IsHeap(s', at, end, Taken(tiles, k, size))
  {
    hide Tiled, Span, Word, TakeMemory;
    FirstFitIs(tiles, size, k);
    TakeOutcome(s, at, end, tiles, k, size, cur, next);
  }

  lemma HeapEnd(s: seq<Byte>, at: nat, end: nat, tiles: seq<Tile>, size: nat, k: nat)
    requires NoFit(tiles, size, k) && k == |tiles|
    ensures FirstFit(tiles, size) == None
  {
    FirstFitIs(tiles, size, k);
  }

  lemma FreeWrites(s: seq<Byte>, block: nat, size: nat)
    requires size < WORD && size % 2 == 0 && block + 8 + size <= |s| <= WORD
    ensures var w := Word(s, block + 4 + size);
      FreeMemory(s, block, size) == Store(s, block, if w % 2 == 0 then (size + 4 + w) % WORD else size)
  {
  }
}
