/**
 * The heap of src/include/ILAllocator.hpp as a row of tiles in byte memory, each a four-byte
 * header and a payload, and what allocating and freeing are to do to that row.
 */
module Tiles {
  import opened Common

  /** The little-endian 32-bit word at address a. */
  function Word(s: seq<Byte>, a: nat): (w: nat)
    requires a + 4 <= |s|
    ensures w < WORD
  {
    var b0: int, b1: int, b2: int, b3: int := s[a], s[a + 1], s[a + 2], s[a + 3];
    b0 + 0x100 * (b1 + 0x100 * (b2 + 0x100 * b3))
  }

  function Bytes(w: nat): (r: seq<Byte>)
    requires w < WORD
    ensures |r| == 4
  {
    [w % 0x100, w / 0x100 % 0x100, w / 0x100 / 0x100 % 0x100, w / 0x100 / 0x100 / 0x100]
  }

  /** Memory with the word w stored at address a. */
  function Store(s: seq<Byte>, a: nat, w: nat): (r: seq<Byte>)
    requires a + 4 <= |s| && w < WORD
    ensures |r| == |s|
  {
    s[..a] + Bytes(w) + s[a + 4..]
  }

  lemma StoreThenWord(s: seq<Byte>, a: nat, w: nat)
    requires a + 4 <= |s| && w < WORD
    ensures Word(Store(s, a, w), a) == w
  {
    var b := Bytes(w);
    assert forall i :: 0 <= i < 4 ==> Store(s, a, w)[a + i] == b[i];
  }

  lemma WordElsewhere(s: seq<Byte>, a: nat, w: nat, b: nat)
    requires a + 4 <= |s| && w < WORD && b + 4 <= |s| && (b + 4 <= a || a + 4 <= b)
    ensures Word(Store(s, a, w), b) == Word(s, b)
  {
  }

  /** The two memories agree from lo to hi. */
  ghost predicate Same(s: seq<Byte>, s': seq<Byte>, lo: nat, hi: nat) {
    |s| == |s'| && hi <= |s| && forall i :: lo <= i < hi ==> s[i] == s'[i]
  }

  lemma SameElsewhere(s: seq<Byte>, a: nat, w: nat, lo: nat, hi: nat)
    requires a + 4 <= |s| && w < WORD && hi <= |s| && (hi <= a || a + 4 <= lo)
    ensures Same(s, Store(s, a, w), lo, hi)
  {
  }

  lemma SameTwice(s: seq<Byte>, a: nat, w: nat, b: nat, x: nat, lo: nat, hi: nat)
    requires a + 4 <= |s| && w < WORD && hi <= |s| && (hi <= a || a + 4 <= lo)
    requires b + 4 <= |s| && x < WORD && (hi <= b || b + 4 <= lo)
    ensures Same(s, Store(Store(s, a, w), b, x), lo, hi)
  {
  }

  /** A block of the heap: payload size and whether it is allocated. */
  datatype Tile = Tile(size: nat, used: bool) {
    predicate Valid() {
      size % 2 == 0 && size < WORD
    }

    function Header(): nat {
      size + if used then 1 else 0
    }
  }

  /** The bytes that a row of tiles takes. */
  function Span(tiles: seq<Tile>): nat {
    if tiles == [] then 0 else 4 + tiles[0].size + Span(tiles[1..])
  }

  lemma {:induction false} SpanAppend(xs: seq<Tile>, ys: seq<Tile>)
    ensures Span(xs + ys) == Span(xs) + Span(ys)
  {
    if xs == [] {
      assert xs + ys == ys;
    } else {
      assert (xs + ys)[1..] == xs[1..] + ys;
      SpanAppend(xs[1..], ys);
    }
  }

  /** From address at on, memory holds these tiles back to back. */
  ghost predicate Tiled(s: seq<Byte>, at: nat, tiles: seq<Tile>)
    requires at + Span(tiles) <= |s|
    decreases tiles
  {
    tiles == [] ||
    (tiles[0].Valid() && Word(s, at) == tiles[0].Header() && Tiled(s, at + 4 + tiles[0].size, tiles[1..]))
  }

  lemma {:induction false} TiledAppend(s: seq<Byte>, at: nat, xs: seq<Tile>, ys: seq<Tile>)
    requires at + Span(xs) + Span(ys) <= |s|
    ensures Span(xs + ys) == Span(xs) + Span(ys)
    ensures Tiled(s, at, xs + ys) <==> Tiled(s, at, xs) && Tiled(s, at + Span(xs), ys)
    decreases xs
  {
    hide Word;
    SpanAppend(xs, ys);
    if xs == [] {
      assert xs + ys == ys;
    } else {
      assert (xs + ys)[1..] == xs[1..] + ys;
      TiledAppend(s, at + 4 + xs[0].size, xs[1..], ys);
    }
  }

  lemma SpanOne(t: Tile)
    ensures Span([t]) == 4 + t.size
  {
    assert [t][1..] == [];
  }

  lemma TiledOne(s: seq<Byte>, at: nat, t: Tile)
    requires at + 4 + t.size <= |s|
    ensures Span([t]) == 4 + t.size
    ensures Tiled(s, at, [t]) <==> t.Valid() && Word(s, at) == t.Header()
  {
    assert [t][1..] == [];
  }

  /** Tiles depend on the bytes they take only. */
  lemma {:induction false} TiledFrame(s: seq<Byte>, s': seq<Byte>, at: nat, tiles: seq<Tile>)
    requires Same(s, s', at, at + Span(tiles)) && Tiled(s, at, tiles)
    ensures Tiled(s', at, tiles)
    decreases tiles
  {
    if tiles != [] {
      TiledFrame(s, s', at + 4 + tiles[0].size, tiles[1..]);
    }
  }

  /** Memory determines its tiles. */
  lemma {:induction false} TiledUnique(s: seq<Byte>, at: nat, xs: seq<Tile>, ys: seq<Tile>)
    requires at + Span(xs) <= |s| && Span(ys) == Span(xs)
    requires Tiled(s, at, xs) && Tiled(s, at, ys)
    ensures xs == ys
    decreases xs
  {
    if xs != [] {
      assert ys != [];
      assert xs[0] == ys[0];
      TiledUnique(s, at + 4 + xs[0].size, xs[1..], ys[1..]);
    }
  }

  /** No row of tiles fills memory from at to end. */
  ghost predicate Untileable(s: seq<Byte>, at: nat, end: nat)
    requires end <= |s|
  {
    forall ts {:trigger Span(ts)} :: at + Span(ts) == end ==> !Tiled(s, at, ts)
  }

  /** Two rows of tiles that memory holds from the same address on start alike. */
  lemma SameFirst(s: seq<Byte>, at: nat, xs: seq<Tile>, ys: seq<Tile>)
    requires at + Span(xs) <= |s| && at + Span(ys) <= |s| && xs != [] && ys != []
    requires Tiled(s, at, xs) && Tiled(s, at, ys)
    ensures xs[0] == ys[0]
  {
  }

  lemma TiledRest(s: seq<Byte>, at: nat, xs: seq<Tile>)
    requires at + Span(xs) <= |s| && xs != [] && Tiled(s, at, xs)
    ensures Span(xs) == 4 + xs[0].size + Span(xs[1..])
    ensures Word(s, at) == xs[0].Header() && xs[0].Valid() && Tiled(s, at + 4 + xs[0].size, xs[1..])
  {
  }

  /** No row starts with a header that points beyond the row's end. */
  lemma NoRowOvershoots(s: seq<Byte>, at: nat, end: nat, ts: seq<Tile>)
    requires at + Span(ts) == end && at < end && end + 4 <= |s|
    requires var w := Word(s, at); at + 4 + (w - w % 2) > end
    ensures !Tiled(s, at, ts)
  {
    hide Word;
    if Tiled(s, at, ts) {
      TiledRest(s, at, ts);
    }
  }

  /** A header within the heap that points beyond its end destroys the tiling. */
  lemma {:induction false} OvershotHeader(s: seq<Byte>, at: nat, pre: seq<Tile>, end: nat)
    requires at + Span(pre) < end && end + 4 <= |s| && Tiled(s, at, pre)
    requires var w := Word(s, at + Span(pre)); at + Span(pre) + 4 + (w - w % 2) > end
    ensures Untileable(s, at, end)
    decreases pre
  {
    hide Tiled, Word;
    forall ts | at + Span(ts) == end ensures !Tiled(s, at, ts) {
      if pre == [] {
        NoRowOvershoots(s, at, end, ts);
      } else if Tiled(s, at, ts) {
        SameFirst(s, at, pre, ts);
        TiledRest(s, at, pre);
        TiledRest(s, at, ts);
        OvershotHeader(s, at + 4 + pre[0].size, pre[1..], end);
      }
    }
  }
}
