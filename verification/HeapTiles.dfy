/**
 * What alloc and free of src/include/ILAllocator.hpp are meant to do to the tiles of the heap,
 * and when the words they write do that.
 */
module HeapTiles {
  import opened Common
  import opened Tiles

  /** The request rounded up to an even size, in 32 bits. */
  function Rounded(size: nat): nat
    requires size < WORD
  {
    if size % 2 == 1 then (size + 1) % WORD else size
  }

  /** A request gets at least its size, but for the one whose rounding wraps to nothing. */
  lemma RoundedCovers(size: nat)
    requires size < WORD
    ensures Rounded(size) % 2 == 0 && Rounded(size) < WORD
    ensures size != 0xFFFFFFFF ==> size <= Rounded(size) <= size + 1
    ensures Rounded(0xFFFFFFFF) == 0
  {
  }

  predicate Fits(t: Tile, size: nat) {
    !t.used && t.size >= size
  }

  /** The index of the first free tile that is large enough. */
  function FirstFit(tiles: seq<Tile>, size: nat): Option<nat> {
    if tiles == [] then None
    else if Fits(tiles[0], size) then Some(0)
    else match FirstFit(tiles[1..], size) case None => None case Some(i) => Some(i + 1)
  }

  /** No tile among the first n fits. */
  ghost predicate NoFit(tiles: seq<Tile>, size: nat, n: nat) {
    n <= |tiles| && forall i :: 0 <= i < n ==> !Fits(tiles[i], size)
  }

  lemma {:induction false} FirstFitIs(tiles: seq<Tile>, size: nat, i: nat)
    requires NoFit(tiles, size, i) && (i < |tiles| ==> Fits(tiles[i], size))
    ensures FirstFit(tiles, size) == if i < |tiles| then Some(i) else None
  {
    if i > 0 {
      FirstFitIs(tiles[1..], size, i - 1);
    }
  }

  /** First fit finds the lowest free tile that is large enough, and none only if there is none. */
  lemma {:induction false} FirstFitLowest(tiles: seq<Tile>, size: nat)
    ensures match FirstFit(tiles, size)
      case None => forall j :: 0 <= j < |tiles| ==> tiles[j].used || tiles[j].size < size
      case Some(i) =>
        && i < |tiles| && !tiles[i].used && tiles[i].size >= size
        && forall j :: 0 <= j < i ==> tiles[j].used || tiles[j].size < size
  {
    if tiles != [] && !Fits(tiles[0], size) {
      FirstFitLowest(tiles[1..], size);
      assert forall i :: 1 <= i < |tiles| ==> tiles[i] == tiles[1..][i - 1];
    }
  }

  function Slack(t: Tile, size: nat): nat
    requires t.size >= size
  {
    t.size - size
  }

  /** What becomes of a free tile: it is split when more than a header is left over. */
  function Pieces(t: Tile, size: nat): seq<Tile>
    requires t.size >= size
  {
    if Slack(t, size) > 4 then [Tile(size, true), Tile(Slack(t, size) - 4, false)] else [Tile(t.size, true)]
  }

  /** The tiles after tile i was taken for size bytes. */
  function Taken(tiles: seq<Tile>, i: nat, size: nat): seq<Tile>
    requires i < |tiles| && tiles[i].size >= size
  {
    tiles[..i] + Pieces(tiles[i], size) + tiles[i + 1..]
  }

  /** The tiles after tile i was freed: merged with the next tile if that is free. */
  function Freed(tiles: seq<Tile>, i: nat): seq<Tile>
    requires i < |tiles|
  {
    if i + 1 < |tiles| && !tiles[i + 1].used then
      tiles[..i] + [Tile(tiles[i].size + 4 + tiles[i + 1].size, false)] + tiles[i + 2..]
    else tiles[..i] + [Tile(tiles[i].size, false)] + tiles[i + 1..]
  }

  /** The request leaves no room for the header that alloc writes behind it. */
  predicate Overruns(tiles: seq<Tile>, i: nat, size: nat)
    requires i < |tiles| && tiles[i].size >= size
  {
    Slack(tiles[i], size) == 2 || (Slack(tiles[i], size) == 0 && i + 1 < |tiles|)
  }

  /** Memory after alloc's writes; the size left over is computed in 32 bits. */
  function TakeMemory(s: seq<Byte>, cur: nat, blockSize: nat, size: nat): (r: seq<Byte>)
    requires size <= blockSize < WORD - 1 && cur + 4 + blockSize + 4 <= |s|
    ensures |r| == |s|
  {
    var remain := (blockSize - 4 - size) % WORD;
    if remain > 0 then Store(Store(s, cur, size + 1), cur + 4 + size, remain)
    else Store(s, cur, blockSize + 1)
  }

  /** Memory after free's write; the merged size is computed in 32 bits. */
  function FreeMemory(s: seq<Byte>, cur: nat, blockSize: nat): (r: seq<Byte>)
    requires blockSize < WORD && cur + 4 + blockSize + 4 <= |s|
    ensures |r| == |s|
  {
    var next := Word(s, cur + 4 + blockSize);
    Store(s, cur, if next % 2 == 0 then (blockSize + 4 + next) % WORD else blockSize)
  }

  /** The heap from at to end is made of these tiles. */
  ghost predicate IsHeap(s: seq<Byte>, at: nat, end: nat, tiles: seq<Tile>) {
    at + Span(tiles) == end && end + 4 <= |s| <= WORD && Tiled(s, at, tiles)
  }

  lemma TiledParts(s: seq<Byte>, at: nat, pre: seq<Tile>, mid: seq<Tile>, post: seq<Tile>)
    requires at + Span(pre) + Span(mid) + Span(post) <= |s|
    ensures Span(pre + mid + post) == Span(pre) + Span(mid) + Span(post)
    ensures Tiled(s, at, pre + mid + post) <==>
              Tiled(s, at, pre) && Tiled(s, at + Span(pre), mid) && Tiled(s, at + Span(pre) + Span(mid), post)
  {
    hide Tiled, Span;
    TiledAppend(s, at, pre, mid);
    TiledAppend(s, at, pre + mid, post);
  }

  /** Tile i of the heap lies at cur, and the tiles after it from next on. */
  ghost predicate Around(s: seq<Byte>, at: nat, end: nat, tiles: seq<Tile>, i: nat, cur: nat, next: nat) {
    && i < |tiles| && end + 4 <= |s| <= WORD
    && next == cur + 4 + tiles[i].size && next <= end
    && at + Span(tiles[..i]) == cur && Tiled(s, at, tiles[..i])
    && tiles[i].Valid() && Word(s, cur) == tiles[i].Header()
    && next + Span(tiles[i + 1..]) == end && Tiled(s, next, tiles[i + 1..])
  }

  /** Tile i in bytes: the low bit of its header's first byte is the allocated bit, and the rest is the size. */
  lemma HeaderInBytes(s: seq<Byte>, at: nat, end: nat, tiles: seq<Tile>, i: nat)
    requires IsHeap(s, at, end, tiles) && i < |tiles|
    ensures var a := at + Span(tiles[..i]);
      && a + 4 + tiles[i].size <= end <= |s|
      && var b: seq<int> := s[a..a + 4];
      && tiles[i].used == (b[0] % 2 == 1)
      && tiles[i].size == b[0] - b[0] % 2 + 0x100 * b[1] + 0x10000 * b[2] + 0x1000000 * b[3]
  {
    hide Tiled, Span;
    var cur, next := TileAt(s, at, end, tiles, i);
  }

  lemma TileAt(s: seq<Byte>, at: nat, end: nat, tiles: seq<Tile>, i: nat) returns (cur: nat, next: nat)
    requires IsHeap(s, at, end, tiles) && i < |tiles|
    ensures Around(s, at, end, tiles, i, cur, next)
    ensures at + Span(tiles[..i + 1]) == next
  {
    hide Tiled, Span;
    var pre, mid, post := tiles[..i], [tiles[i]], tiles[i + 1..];
    assert tiles == pre + mid + post && tiles[..i + 1] == pre + mid;
    cur, next := at + Span(pre), at + Span(pre) + 4 + tiles[i].size;
    SpanAppend(pre, mid);
    SpanAppend(pre + mid, post);
    SpanOne(tiles[i]);
    TiledOne(s, cur, tiles[i]);
    TiledParts(s, at, pre, mid, post);
  }

  /** Tiles mid from cur to next, put between tiles that stay, make a heap. */
  lemma Replaced(s: seq<Byte>, s': seq<Byte>, at: nat, cur: nat, next: nat, end: nat,
                 pre: seq<Tile>, mid: seq<Tile>, post: seq<Tile>)
    requires at + Span(pre) == cur && cur + Span(mid) == next && next + Span(post) == end && end + 4 <= |s| <= WORD
    requires Tiled(s, at, pre) && Tiled(s, next, post) && Same(s, s', at, cur) && Same(s, s', next, end)
    ensures IsHeap(s', at, end, pre + mid + post) <==> Tiled(s', cur, mid)
  {
    hide Tiled, Span;
    TiledFrame(s, s', at, pre);
    TiledFrame(s, s', next, post);
    TiledParts(s', at, pre, mid, post);
  }

  lemma TwoTiles(s: seq<Byte>, at: nat, a: Tile, b: Tile)
    requires at + 8 + a.size + b.size <= |s| && a.Valid() && b.Valid()
    requires Word(s, at) == a.Header() && Word(s, at + 4 + a.size) == b.Header()
    ensures Span([a, b]) == 8 + a.size + b.size && Tiled(s, at, [a, b])
  {
    hide Word;
    SpanAppend([a], [b]);
    TiledOne(s, at, a);
    TiledOne(s, at + 4 + a.size, b);
    assert [a, b] == [a] + [b];
    TiledAppend(s, at, [a], [b]);
  }

  /** Splitting a tile. */
  lemma SplitTile(s: seq<Byte>, at: nat, end: nat, tiles: seq<Tile>, i: nat, size: nat, cur: nat, next: nat)
    requires Around(s, at, end, tiles, i, cur, next) && size % 2 == 0 && tiles[i].size > size + 4
    ensures IsHeap(TakeMemory(s, cur, tiles[i].size, size), at, end, Taken(tiles, i, size))
  {
    hide Tiled, Span, Store, Word, Same;
    var t := tiles[i];
    var used, left := Tile(size, true), Tile(t.size - size - 4, false);
    var mid := cur + 4 + size;
    var s1 := Store(s, cur, size + 1);
    var s' := Store(s1, mid, left.size);
    StoreThenWord(s, cur, size + 1);
    WordElsewhere(s1, mid, left.size, cur);
    StoreThenWord(s1, mid, left.size);
    TwoTiles(s', cur, used, left);
    SameTwice(s, cur, size + 1, mid, left.size, at, cur);
    SameTwice(s, cur, size + 1, mid, left.size, next, end);
    Replaced(s, s', at, cur, next, end, tiles[..i], [used, left], tiles[i + 1..]);
  }

  /** Marking a whole tile. */
  lemma MarkTile(s: seq<Byte>, at: nat, end: nat, tiles: seq<Tile>, i: nat, cur: nat, next: nat, used: bool)
    requires Around(s, at, end, tiles, i, cur, next)
    ensures var t := Tile(tiles[i].size, used);
      IsHeap(Store(s, cur, t.Header()), at, end, tiles[..i] + [t] + tiles[i + 1..])
  {
    hide Tiled, Span, Store, Word, Same;
    var t := Tile(tiles[i].size, used);
    var s' := Store(s, cur, t.Header());
    StoreThenWord(s, cur, t.Header());
    TiledOne(s', cur, t);
    SameElsewhere(s, cur, t.Header(), at, cur);
    SameElsewhere(s, cur, t.Header(), next, end);
    Replaced(s, s', at, cur, next, end, tiles[..i], [t], tiles[i + 1..]);
  }

  /** A perfect fit in the last tile writes a word just beyond the heap. */
  lemma FitsLastTile(s: seq<Byte>, at: nat, end: nat, tiles: seq<Tile>, i: nat, cur: nat, next: nat)
    requires Around(s, at, end, tiles, i, cur, next) && i + 1 == |tiles|
    ensures var t := tiles[i];
      && IsHeap(TakeMemory(s, cur, t.size, t.size), at, end, Taken(tiles, i, t.size))
      && Word(TakeMemory(s, cur, t.size, t.size), end) == WORD - 4
  {
    hide Tiled, Store, Word, Same;
    var t := Tile(tiles[i].size, true);
    assert next == end by {
      assert tiles[i + 1..] == [];
    }
    var s1 := Store(s, cur, t.Header());
    var s' := Store(s1, end, WORD - 4);
    StoreThenWord(s, cur, t.Header());
    WordElsewhere(s1, end, WORD - 4, cur);
    StoreThenWord(s1, end, WORD - 4);
    TiledOne(s', cur, t);
    SameTwice(s, cur, t.Header(), end, WORD - 4, at, cur);
    SameTwice(s, cur, t.Header(), end, WORD - 4, next, end);
    Replaced(s, s', at, cur, next, end, tiles[..i], [t], tiles[i + 1..]);
  }

  /** Without room for the header behind it, a request destroys the heap. */
  lemma OverrunDestroys(s: seq<Byte>, at: nat, end: nat, tiles: seq<Tile>, i: nat, size: nat, cur: nat, next: nat)
    requires Around(s, at, end, tiles, i, cur, next)
    requires size % 2 == 0 && size <= tiles[i].size && Overruns(tiles, i, size)
    ensures Untileable(TakeMemory(s, cur, tiles[i].size, size), at, end)
  {
    hide Tiled, Store, Word, Same;
    var t := Tile(size, true);
    var mid, w := cur + 4 + size, (tiles[i].size - 4 - size) % WORD;
    var s1 := Store(s, cur, size + 1);
    var s' := Store(s1, mid, w);
    StoreThenWord(s, cur, size + 1);
    WordElsewhere(s1, mid, w, cur);
    StoreThenWord(s1, mid, w);
    SameTwice(s, cur, size + 1, mid, w, at, cur);
    TiledFrame(s, s', at, tiles[..i]);
    TiledOne(s', cur, t);
    TiledAppend(s', at, tiles[..i], [t]);
    assert mid < end by {
      assert i + 1 < |tiles| ==> Span(tiles[i + 1..]) >= 4;
    }
    OvershotHeader(s', at, tiles[..i] + [t], end);
  }

  /** alloc's writes leave the tiles they should unless they overrun; then no tiles at all are left. */
  lemma TakeOutcome(s: seq<Byte>, at: nat, end: nat, tiles: seq<Tile>, i: nat, size: nat, cur: nat, next: nat)
    requires Around(s, at, end, tiles, i, cur, next) && size % 2 == 0 && size <= tiles[i].size
    ensures var s' := TakeMemory(s, cur, tiles[i].size, size);
      if Overruns(tiles, i, size) then Untileable(s', at, end) else IsHeap(s', at, end, Taken(tiles, i, size))
  {
    hide Tiled, Span, Store, Word, Same;
    if Overruns(tiles, i, size) {
      OverrunDestroys(s, at, end, tiles, i, size, cur, next);
    } else if tiles[i].size == size {
      FitsLastTile(s, at, end, tiles, i, cur, next);
    } else if tiles[i].size == size + 4 {
      MarkTile(s, at, end, tiles, i, cur, next, true);
    } else {
      SplitTile(s, at, end, tiles, i, size, cur, next);
    }
  }

  /** Merging a tile with the free tile behind it. */
  lemma MergeTiles(s: seq<Byte>, at: nat, end: nat, tiles: seq<Tile>, i: nat, cur: nat, next: nat)
    requires Around(s, at, end, tiles, i, cur, next) && i + 1 < |tiles| && !tiles[i + 1].used
    ensures IsHeap(FreeMemory(s, cur, tiles[i].size), at, end, Freed(tiles, i))
  {
    hide Tiled, Span, Store, Word, Same;
    var b, post := tiles[i + 1], tiles[i + 2..];
    var t := Tile(tiles[i].size + 4 + b.size, false);
    assert tiles[i + 1..] == [b] + post;
    SpanAppend([b], post);
    SpanOne(b);
    TiledAppend(s, next, [b], post);
    TiledOne(s, next, b);
    var next2 := next + 4 + b.size;
    StoreThenWord(s, cur, t.size);
    SpanOne(t);
    TiledOne(Store(s, cur, t.size), cur, t);
    SameElsewhere(s, cur, t.size, at, cur);
    SameElsewhere(s, cur, t.size, next2, end);
    Replaced(s, Store(s, cur, t.size), at, cur, next2, end, tiles[..i], [t], post);
  }

  /**
   * free's write leaves the tiles it should, but for the last tile only if the word beyond the heap
   * happens to be odd or to hold 2^32 - 4.
   */
  lemma FreeOutcome(s: seq<Byte>, at: nat, end: nat, tiles: seq<Tile>, i: nat, cur: nat, next: nat)
    requires Around(s, at, end, tiles, i, cur, next)
    ensures IsHeap(FreeMemory(s, cur, tiles[i].size), at, end, Freed(tiles, i)) <==>
              (i + 1 < |tiles| || Word(s, end) % 2 == 1 || Word(s, end) == WORD - 4)
  {
    hide Tiled, Store, Word, Same;
    if i + 1 < |tiles| && !tiles[i + 1].used {
      MergeTiles(s, at, end, tiles, i, cur, next);
    } else {
      MarkTile(s, at, end, tiles, i, cur, next, false);
      if i + 1 < |tiles| {
        assert tiles[i + 1..][0] == tiles[i + 1];
        FirstHeader(s, next, tiles[i + 1..]);
      } else {
        LastFreed(s, at, end, tiles, i, cur);
      }
    }
  }

  lemma FirstHeader(s: seq<Byte>, at: nat, tiles: seq<Tile>)
    requires at + Span(tiles) <= |s| && Tiled(s, at, tiles) && tiles != []
    ensures at + 4 <= |s| && Word(s, at) == tiles[0].Header() && tiles[0].Valid()
  {
  }

  lemma LastFreed(s: seq<Byte>, at: nat, end: nat, tiles: seq<Tile>, i: nat, cur: nat)
    requires Around(s, at, end, tiles, i, cur, end) && i + 1 == |tiles|
    requires var t := Tile(tiles[i].size, false);
      IsHeap(Store(s, cur, t.Header()), at, end, tiles[..i] + [t] + tiles[i + 1..])
    ensures IsHeap(FreeMemory(s, cur, tiles[i].size), at, end, Freed(tiles, i)) <==>
              (Word(s, end) % 2 == 1 || Word(s, end) == WORD - 4)
  {
    hide Tiled, Span, Store, Word, Same;
    var s', w := FreeMemory(s, cur, tiles[i].size), Word(s, end);
    if w % 2 == 0 {
      var size := (tiles[i].size + 4 + w) % WORD;
      assert size == tiles[i].size <==> w == WORD - 4;
      StoreThenWord(s, cur, size);
      if IsHeap(s', at, end, Freed(tiles, i)) {
        var c, n := TileAt(s', at, end, Freed(tiles, i), i);
        assert Freed(tiles, i)[..i] == tiles[..i];
      }
    }
  }

  /** Writing a byte of a payload keeps the heap as it is. */
  lemma PayloadWrite(s: seq<Byte>, at: nat, end: nat, tiles: seq<Tile>, i: nat, cur: nat, next: nat, a: nat, b: Byte)
    requires IsHeap(s, at, end, tiles) && Around(s, at, end, tiles, i, cur, next) && cur + 4 <= a < next
    ensures IsHeap(s[a := b], at, end, tiles)
  {
    hide Tiled, Span;
    var s' := s[a := b];
    assert Word(s', cur) == Word(s, cur);
    hide Word;
    SpanOne(tiles[i]);
    TiledOne(s', cur, tiles[i]);
    Replaced(s, s', at, cur, next, end, tiles[..i], [tiles[i]], tiles[i + 1..]);
    assert tiles == tiles[..i] + [tiles[i]] + tiles[i + 1..];
  }

  lemma {:induction false} SpanPrefix(tiles: seq<Tile>, i: nat, j: nat)
    requires i < j <= |tiles|
    ensures Span(tiles[..i]) + 4 + tiles[i].size <= Span(tiles[..j]) <= Span(tiles)
  {
    var mid := tiles[i + 1..j];
    assert tiles[..j] == tiles[..i] + [tiles[i]] + mid && tiles == tiles[..j] + tiles[j..];
    SpanOne(tiles[i]);
    SpanAppend(tiles[..i], [tiles[i]]);
    SpanAppend(tiles[..i] + [tiles[i]], mid);
    SpanAppend(tiles[..j], tiles[j..]);
  }

  /** No request that does not overrun touches a byte of another tile, nor any byte outside the heap. */
  lemma TakeKeepsOthers(s: seq<Byte>, at: nat, end: nat, tiles: seq<Tile>, i: nat, size: nat, cur: nat, next: nat)
    requires Around(s, at, end, tiles, i, cur, next)
    requires size % 2 == 0 && size <= tiles[i].size && !Overruns(tiles, i, size)
    ensures var s' := TakeMemory(s, cur, tiles[i].size, size);
      && Same(s, s', 0, cur) && Same(s, s', next, end)
      && (size < tiles[i].size ==> Same(s, s', end, |s|))
      && Same(s, s', end + 4, |s|)
  {
    hide Tiled, Word, Same, Store;
    assert i + 1 == |tiles| ==> tiles[i + 1..] == [];
    if size + 4 == tiles[i].size {
      SameElsewhere(s, cur, tiles[i].size + 1, 0, cur);
      SameElsewhere(s, cur, tiles[i].size + 1, next, end);
      SameElsewhere(s, cur, tiles[i].size + 1, end, |s|);
      SameElsewhere(s, cur, tiles[i].size + 1, end + 4, |s|);
    } else {
      var mid, w := cur + 4 + size, (tiles[i].size - 4 - size) % WORD;
      SameTwice(s, cur, size + 1, mid, w, 0, cur);
      SameTwice(s, cur, size + 1, mid, w, end + 4, |s|);
      if size < tiles[i].size {
        SameTwice(s, cur, size + 1, mid, w, next, end);
        SameTwice(s, cur, size + 1, mid, w, end, |s|);
      } else {
        SameNowhere(s, Store(Store(s, cur, size + 1), mid, w), end);
      }
    }
  }

  lemma SameNowhere(s: seq<Byte>, s': seq<Byte>, a: nat)
    requires |s| == |s'| && a <= |s|
    ensures Same(s, s', a, a)
  {
  }

  /** free touches only the header of the block. */
  lemma FreeKeepsOthers(s: seq<Byte>, cur: nat, size: nat)
    requires size < WORD && cur + 8 + size <= |s|
    ensures Same(s, FreeMemory(s, cur, size), 0, cur) && Same(s, FreeMemory(s, cur, size), cur + 4, |s|)
  {
    hide Word;
  }

  /** Freeing at once what was just taken restores the tiles, unless the whole tile had a free one behind it. */
  lemma FreedTaken(tiles: seq<Tile>, i: nat, size: nat)
    requires i < |tiles| && Fits(tiles[i], size)
    ensures Freed(Taken(tiles, i, size), i) == tiles <==>
              (Slack(tiles[i], size) > 4 || i + 1 == |tiles| || tiles[i + 1].used)
  {
    var t, pre, post := tiles[i], tiles[..i], tiles[i + 1..];
    var taken := Taken(tiles, i, size);
    assert tiles == pre + [t] + post && taken[..i] == pre;
    if Slack(t, size) > 4 {
      assert taken[i + 2..] == post;
      assert taken[i + 1] == Tile(t.size - size - 4, false);
    } else {
      assert taken[i + 1..] == post;
      if i + 1 < |tiles| && !tiles[i + 1].used {
        assert |Freed(taken, i)| == |tiles| - 1;
      }
    }
  }

  /** The tile taken is used and has the size asked for, or up to four bytes more; those before it stay. */
  lemma TakenIsUsed(tiles: seq<Tile>, i: nat, size: nat)
    requires i < |tiles| && tiles[i].size >= size
    ensures var after := Taken(tiles, i, size);
      && i < |after| && after[i].used && size <= after[i].size
      && (after[i].size <= size + 4) && after[..i] == tiles[..i]
  {
  }

  /** The tile freed is free, and no smaller than it was; those before it stay. */
  lemma FreedIsFree(tiles: seq<Tile>, i: nat)
    requires i < |tiles|
    ensures var after := Freed(tiles, i);
      i < |after| && !after[i].used && after[i].size >= tiles[i].size && after[..i] == tiles[..i]
  {
  }

  /** p is the payload of a used tile of at least this size. */
  ghost predicate Granted(start: nat, tiles: seq<Tile>, p: nat, size: nat) {
    exists i: nat {:trigger tiles[i]} ::
      i < |tiles| && p == start + Span(tiles[..i]) + 4 && tiles[i].used && tiles[i].size >= size
  }

  /** Every request in turn finds a tile and splits it. */
  ghost predicate AllSplit(tiles: seq<Tile>, sizes: seq<nat>)
    decreases |sizes|
  {
    sizes == [] ||
    (FirstFitLowest(tiles, sizes[0]); var hit := FirstFit(tiles, sizes[0]);
      hit.Some? && Slack(tiles[hit.value], sizes[0]) > 4 && AllSplit(Taken(tiles, hit.value, sizes[0]), sizes[1..]))
  }

  lemma SpanAround(tiles: seq<Tile>, i: nat, n: nat, mid: seq<Tile>)
    requires i <= n <= |tiles|
    ensures Span(tiles) == Span(tiles[..i]) + Span(tiles[i..n]) + Span(tiles[n..])
    ensures Span(tiles[..i] + mid + tiles[n..]) == Span(tiles[..i]) + Span(mid) + Span(tiles[n..])
  {
    assert tiles == tiles[..i] + tiles[i..n] + tiles[n..];
    SpanAppend(tiles[..i], tiles[i..n]);
    SpanAppend(tiles[..i] + tiles[i..n], tiles[n..]);
    SpanAppend(tiles[..i], mid);
    SpanAppend(tiles[..i] + mid, tiles[n..]);
  }

  lemma SpanTwo(a: Tile, b: Tile)
    ensures Span([a, b]) == 8 + a.size + b.size
  {
    SpanOne(a);
    SpanOne(b);
    SpanAppend([a], [b]);
    assert [a, b] == [a] + [b];
  }

  datatype Request = Alloc(size: nat) | Free(index: nat)

  /** The tiles after a request; one that finds no tile has no effect. */
  function Served(tiles: seq<Tile>, r: Request): seq<Tile> {
    match r
    case Alloc(size) =>
      var hit := FirstFit(tiles, size);
      if hit.Some? && hit.value < |tiles| && tiles[hit.value].size >= size then Taken(tiles, hit.value, size) else tiles
    case Free(i) => if i < |tiles| then Freed(tiles, i) else tiles
  }

  function ServedAll(tiles: seq<Tile>, rs: seq<Request>): seq<Tile>
    decreases |rs|
  {
    if rs == [] then tiles else ServedAll(Served(tiles, rs[0]), rs[1..])
  }

  lemma TakenKeepsSpan(tiles: seq<Tile>, i: nat, size: nat)
    requires i < |tiles| && tiles[i].size >= size
    ensures Span(Taken(tiles, i, size)) == Span(tiles)
  {
    hide Span;
    var t := tiles[i];
    SpanAround(tiles, i, i + 1, Pieces(t, size));
    assert tiles[i..i + 1] == [t];
    SpanOne(t);
    SpanOne(Tile(t.size, true));
    if t.size > size + 4 {
      SpanTwo(Tile(size, true), Tile(t.size - size - 4, false));
    }
  }

  lemma MergedKeepsSpan(tiles: seq<Tile>, i: nat)
    requires i + 1 < |tiles|
    ensures var merged := Tile(tiles[i].size + 4 + tiles[i + 1].size, false);
      Span(tiles[..i] + [merged] + tiles[i + 2..]) == Span(tiles)
  {
    hide Span;
    var merged := Tile(tiles[i].size + 4 + tiles[i + 1].size, false);
    assert tiles[i..i + 2] == [tiles[i], tiles[i + 1]];
    SpanTwo(tiles[i], tiles[i + 1]);
    SpanOne(merged);
    SpanAround(tiles, i, i + 2, [merged]);
  }

  lemma MarkedKeepsSpan(tiles: seq<Tile>, i: nat, used: bool)
    requires i < |tiles|
    ensures Span(tiles[..i] + [Tile(tiles[i].size, used)] + tiles[i + 1..]) == Span(tiles)
  {
    hide Span;
    assert tiles[i..i + 1] == [tiles[i]];
    SpanOne(tiles[i]);
    SpanOne(Tile(tiles[i].size, used));
    SpanAround(tiles, i, i + 1, [Tile(tiles[i].size, used)]);
  }

  lemma FreedKeepsSpan(tiles: seq<Tile>, i: nat)
    requires i < |tiles|
    ensures Span(Freed(tiles, i)) == Span(tiles)
  {
    hide Span;
    if i + 1 < |tiles| && !tiles[i + 1].used {
      MergedKeepsSpan(tiles, i);
    } else {
      MarkedKeepsSpan(tiles, i, false);
    }
  }

  /** No request and no release changes the bytes that payloads and headers take together. */
  lemma ServedKeepsSpan(tiles: seq<Tile>, r: Request)
    ensures Span(Served(tiles, r)) == Span(tiles)
  {
    hide Span, Taken, Freed;
    match r
    case Alloc(size) =>
      var hit := FirstFit(tiles, size);
      if hit.Some? && hit.value < |tiles| && tiles[hit.value].size >= size {
        TakenKeepsSpan(tiles, hit.value, size);
      }
    case Free(i) =>
      if i < |tiles| {
        FreedKeepsSpan(tiles, i);
      }
  }

  /** Conservation over every run of requests. */
  lemma {:induction false} RunKeepsSpan(tiles: seq<Tile>, rs: seq<Request>)
    ensures Span(ServedAll(tiles, rs)) == Span(tiles)
    decreases |rs|
  {
    if rs != [] {
      ServedKeepsSpan(tiles, rs[0]);
      RunKeepsSpan(Served(tiles, rs[0]), rs[1..]);
    }
  }

  /** The requests of these sizes in turn, and then the release of what each got, the last one first. */
  ghost function Session(tiles: seq<Tile>, sizes: seq<nat>): (rs: seq<Request>)
    requires AllSplit(tiles, sizes)
    ensures |rs| == 2 * |sizes|
    decreases |sizes|
  {
    if sizes == [] then []
    else
      FirstFitLowest(tiles, sizes[0]);
      var i := FirstFit(tiles, sizes[0]).value;
      [Alloc(sizes[0])] + Session(Taken(tiles, i, sizes[0]), sizes[1..]) + [Free(i)]
  }

  /** Session asks for the sizes in order, and in the second half releases in reverse what the first half got. */
  lemma {:induction false} SessionIs(tiles: seq<Tile>, sizes: seq<nat>, k: nat)
    requires AllSplit(tiles, sizes) && k < |sizes|
    ensures var rs := Session(tiles, sizes);
      && rs[k] == Alloc(sizes[k])
      && FirstFit(ServedAll(tiles, rs[..k]), sizes[k]).Some?
      && rs[2 * |sizes| - 1 - k] == Free(FirstFit(ServedAll(tiles, rs[..k]), sizes[k]).value)
    decreases |sizes|
  {
    hide Taken, Served, FirstFit;
    FirstFitLowest(tiles, sizes[0]);
    var i := FirstFit(tiles, sizes[0]).value;
    var taken := Taken(tiles, i, sizes[0]);
    var inner := Session(taken, sizes[1..]);
    assert Session(tiles, sizes) == [Alloc(sizes[0])] + inner + [Free(i)];
    Bracketed(Alloc(sizes[0]), inner, Free(i), k);
    if k > 0 {
      SessionIs(taken, sizes[1..], k - 1);
      ServedFirst(tiles, sizes[0], i);
      assert sizes[1..][k - 1] == sizes[k];
    }
  }

  lemma ServedFirst(tiles: seq<Tile>, size: nat, i: nat)
    requires FirstFit(tiles, size) == Some(i) && i < |tiles| && tiles[i].size >= size
    ensures Served(tiles, Alloc(size)) == Taken(tiles, i, size)
  {
  }

  /** Places in a sequence put between two elements. */
  lemma Bracketed<T>(a: T, inner: seq<T>, z: T, k: nat)
    requires k <= |inner| + 1
    ensures var rs := [a] + inner + [z];
      && |rs| == |inner| + 2 && rs[0] == a && rs[|rs| - 1] == z && rs[..0] == []
      && (0 < k <= |inner| ==>
            && rs[k] == inner[k - 1] && rs[|rs| - 1 - k] == inner[|inner| - k]
            && rs[..k][0] == a && rs[..k][1..] == inner[..k - 1])
  {
  }

  lemma {:induction false} ServedAppend(tiles: seq<Tile>, rs: seq<Request>, r: Request)
    ensures ServedAll(tiles, rs + [r]) == Served(ServedAll(tiles, rs), r)
    decreases |rs|
  {
    if rs == [] {
      assert [] + [r] == [r] && [r][1..] == [];
    } else {
      assert (rs + [r])[1..] == rs[1..] + [r];
      ServedAppend(Served(tiles, rs[0]), rs[1..], r);
    }
  }

  /** Stack discipline: blocks freed in the reverse order of their allocation leave the heap as it was. */
  lemma {:induction false} StackDiscipline(tiles: seq<Tile>, sizes: seq<nat>)
    requires AllSplit(tiles, sizes)
    ensures ServedAll(tiles, Session(tiles, sizes)) == tiles
    decreases |sizes|
  {
    if sizes != [] {
      hide Taken, Freed;
      FirstFitLowest(tiles, sizes[0]);
      var i := FirstFit(tiles, sizes[0]).value;
      var taken := Taken(tiles, i, sizes[0]);
      var inner := Session(taken, sizes[1..]);
      StackDiscipline(taken, sizes[1..]);
      ServedAppend(tiles, [Alloc(sizes[0])] + inner, Free(i));
      assert ([Alloc(sizes[0])] + inner)[1..] == inner;
      assert Served(tiles, Alloc(sizes[0])) == taken;
      FreedTaken(tiles, i, sizes[0]);
      TakenLength(tiles, i, sizes[0]);
    }
  }

  lemma TakenLength(tiles: seq<Tile>, i: nat, size: nat)
    requires i < |tiles| && tiles[i].size >= size
    ensures |Taken(tiles, i, size)| >= |tiles|
  {
  }

  /** Where nothing tiles memory there is no heap. */
  lemma NoHeap(s: seq<Byte>, at: nat, end: nat, tiles: seq<Tile>)
    requires end <= |s| && Untileable(s, at, end)
    ensures !IsHeap(s, at, end, tiles)
  {
    if at + Span(tiles) == end && end + 4 <= |s| <= WORD {
      assert !Tiled(s, at, tiles);
    }
  }
}
