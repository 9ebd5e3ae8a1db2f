/**
 * The block layer of src/lib/fs.cc: a disk of 1024-byte blocks behind the LRU cache. The disk is
 * also where the cache's uncache callback writes evicted buffers.
 */
module BlockLayer {
  import opened Common
  import opened Ring
  import opened Recency
  import opened LruCache

  const BLOCK_SIZE := 1024

  function BlankBlock(): seq<Byte> {
    seq(BLOCK_SIZE, _ => 0)
  }

  type Block = s: seq<Byte> | |s| == BLOCK_SIZE witness BlankBlock()

  /** Block contents by block number. */
  type Image = map<nat, Block>

  /** Of the disk only blocks changed, and only to what they meant anyway. */
  ghost predicate Flushed(before: Image, view: Image, after: Image) {
    && after.Keys == before.Keys
    && forall b {:trigger FlushedAt(before, view, after, b)} :: b in after ==> FlushedAt(before, view, after, b)
  }

  ghost predicate FlushedAt(before: Image, view: Image, after: Image, b: nat) {
    b in before && b in after && b in view ==> after[b] == before[b] || after[b] == view[b]
  }

  /**
   * Entering k, and evicting k0 to disk first when gone is {k0}, leaves every block but k with
   * the content it had.
   */
  lemma EntryKeepsView(store: Image, contents: Image, k: nat, v: Block, store': Image, contents': Image)
    requires contents.Keys <= store.Keys && k in store
    requires
      || (store' == store && contents' == contents[k := v])
      || (exists k0 :: k0 in contents && k0 != k
           && store' == store[k0 := contents[k0]] && contents' == (contents - {k0})[k := v])
    ensures contents'.Keys <= store'.Keys
    ensures store' + contents' == (store + contents)[k := v]
    ensures Flushed(store, store + contents, store')
  {
  }

  lemma FillChangesView(store: Image, contents: Image, k: nat, v: Block)
    requires contents.Keys <= store.Keys && k in contents
    ensures store + contents[k := v] == (store + contents)[k := v]
    ensures contents[k := v].Keys <= store.Keys
  {
  }

  lemma RestoreBlock(view: Image, k: nat, stale: Block)
    requires k in view
    ensures view[k := stale][k := view[k]] == view
  {
  }

  lemma WriteBackKeepsView(store: Image, contents: Image, k: nat)
    requires contents.Keys <= store.Keys && k in contents
    ensures (store + contents)[k] == contents[k]
    ensures store[k := contents[k]] + contents == store + contents
    ensures contents.Keys <= store[k := contents[k]].Keys
  {
  }

  class Blocks {
    const cache: LRUCache<Block>
    const disk: Backing<Block>

    ghost predicate Valid()
      reads cache, cache.table, cache.order, cache.made, disk
    {
      cache.Valid() && cache.cb == disk && cache.ix.contents.Keys <= disk.store.Keys
    }

    /** What each block means to the file system: its cached buffer if it has one, else the disk. */
    ghost function View(): Image
      reads cache, disk
    {
      disk.store + cache.ix.contents
    }

    ghost function Footprint(): set<object>
      reads cache
    {
      {cache, cache.table, disk} + cache.made
    }

    constructor (n: nat, contents: Image)
      requires 1 <= n
      ensures Valid() && cache.N == n && cache.keys == [] && fresh(Footprint())
      ensures disk.store == contents == View()
    {
      var d := new Backing(contents);
      disk := d;
      cache := new LRUCache(n, d);
    }

    lemma ViewKeys()
      requires Valid()
      ensures View().Keys == disk.store.Keys
    {
    }

    /** Get, with what the block layer needs to know. */
    method Lookup(bno: nat) returns (buff: ListNode?<Block>)
      requires Valid()
      modifies Footprint()
      ensures Valid() && Footprint() == old(Footprint())
      ensures View() == old(View()) && disk.store == old(disk.store)
      ensures buff != null <==> bno in old(cache.keys)
      ensures buff == null ==> cache.keys == old(cache.keys)
      ensures buff != null ==> cache.keys == Touch(old(cache.keys), bno, cache.N)
      ensures buff != null ==> bno in cache.ix.cell && buff == cache.ix.cell[bno]
      ensures buff != null ==> bno in cache.ix.contents && buff.value == cache.ix.contents[bno] == View()[bno]
    {
      cache.OrderMade();
      buff := cache.Get(bno);
    }

    /** Alloc: some block may leave the cache for the disk; bno's buffer has stale content. */
    method Allocate(bno: nat) returns (buff: ListNode<Block>)
      requires Valid() && bno !in cache.keys && bno in disk.store
      modifies Footprint()
      ensures Valid() && fresh(Footprint() - old(Footprint()))
      ensures cache.keys == Touch(old(cache.keys), bno, cache.N)
      ensures bno in cache.ix.cell && buff == cache.ix.cell[bno]
      ensures View() == old(View())[bno := buff.value]
      ensures Flushed(old(disk.store), old(View()), disk.store) && disk.store[bno] == old(View())[bno]
    {
      hide LRUCache.Valid;
      cache.OrderMade();
      cache.ResidentFacts(bno);
      ghost var store, contents := disk.store, cache.ix.contents;
      buff := cache.Set(bno);
      EntryKeepsView(store, contents, bno, buff.value, disk.store, cache.ix.contents);
    }

    /** A buffer to overwrite: the block's own when cached, else one with stale content. */
    method GetBlock(bno: nat) returns (buff: ListNode<Block>)
      requires Valid() && bno in disk.store
      modifies Footprint()
      ensures Valid() && fresh(Footprint() - old(Footprint()))
      ensures cache.keys == Touch(old(cache.keys), bno, cache.N)
      ensures bno in cache.ix.cell && buff == cache.ix.cell[bno]
      ensures bno in old(cache.keys) ==> View() == old(View())
      ensures View() == old(View())[bno := buff.value]
      ensures Flushed(old(disk.store), old(View()), disk.store)
    {
      hide LRUCache.Valid;
      var hit := Lookup(bno);
      if hit != null {
        buff := hit;
      } else {
        buff := Allocate(bno);
      }
    }

    /** Overwrites a cached buffer in place. */
    method Fill(bno: nat, buff: ListNode<Block>, data: Block)
      requires Valid() && bno in cache.ix.contents && bno in cache.ix.cell && buff == cache.ix.cell[bno]
      modifies cache`ix, buff`value
      ensures Valid() && Footprint() == old(Footprint()) && cache.keys == old(cache.keys)
      ensures buff.value == data && View() == old(View())[bno := data]
      ensures cache.ix.cell == old(cache.ix.cell)
    {
      hide LRUCache.Valid;
      FillChangesView(disk.store, cache.ix.contents, bno, data);
      cache.Assign(bno, buff, data);
    }

    /** The miss case of read_block: a new entry filled from the disk. */
    method Load(bno: nat) returns (buff: ListNode<Block>)
      requires Valid() && bno !in cache.keys && bno in disk.store
      modifies Footprint()
      ensures Valid() && fresh(Footprint() - old(Footprint()))
      ensures cache.keys == Touch(old(cache.keys), bno, cache.N)
      ensures bno in cache.ix.cell && buff == cache.ix.cell[bno]
      ensures View() == old(View()) && bno in View() && buff.value == View()[bno]
      ensures Flushed(old(disk.store), old(View()), disk.store)
    {
      hide LRUCache.Valid;
      buff := Allocate(bno);
      RestoreBlock(old(View()), bno, buff.value);
      cache.ResidentFacts(bno);
      Fill(bno, buff, disk.store[bno]);
    }

    /** The up-to-date buffer of a block; whatever gets evicted, no block's meaning changes. */
    method ReadBlock(bno: nat) returns (buff: ListNode<Block>)
      requires Valid() && bno in disk.store
      modifies Footprint()
      ensures Valid() && fresh(Footprint() - old(Footprint()))
      ensures cache.keys == Touch(old(cache.keys), bno, cache.N)
      ensures bno in cache.ix.cell && buff == cache.ix.cell[bno]
      ensures View() == old(View()) && bno in View() && buff.value == View()[bno]
      ensures Flushed(old(disk.store), old(View()), disk.store)
    {
      hide LRUCache.Valid;
      var hit := Lookup(bno);
      if hit != null {
        buff := hit;
      } else {
        buff := Load(bno);
      }
    }

    /** The transfer of a cached buffer to its block on disk. */
    method WriteBack(bno: nat, buff: ListNode<Block>)
      requires Valid() && bno in cache.ix.contents && buff.value == cache.ix.contents[bno]
      modifies disk`store
      ensures Valid() && View() == old(View())
      ensures disk.store == old(disk.store)[bno := buff.value] && buff.value == View()[bno]
    {
      hide LRUCache.Valid;
      WriteBackKeepsView(disk.store, cache.ix.contents, bno);
      disk.Uncache(bno, buff.value);
    }

    /** Writes the cached buffer to disk; false, and no effect, when the block is not cached. */
    method WriteBlock(bno: nat) returns (ok: bool)
      requires Valid()
      modifies Footprint()
      ensures Valid() && Footprint() == old(Footprint()) && View() == old(View())
      ensures ok <==> bno in old(cache.keys)
      ensures cache.keys == if ok then Touch(old(cache.keys), bno, cache.N) else old(cache.keys)
      ensures ok ==> bno in View() && disk.store == old(disk.store)[bno := View()[bno]]
      ensures !ok ==> disk.store == old(disk.store)
    {
      hide LRUCache.Valid;
      var buff := Lookup(bno);
      if buff == null {
        return false;
      }
      WriteBack(bno, buff);
      ok := true;
    }
  }

  lemma RunNext(trace: seq<nat>, i: nat, cap: nat)
    requires i < |trace|
    ensures Run(trace[..i + 1], cap) == Touch(Run(trace[..i], cap), trace[i], cap)
  {
    assert trace[..i + 1][..i] == trace[..i];
  }

  /**
   * A trace of accesses to an empty cache, each by read_block or by get_block: the cache then holds
   * the keys that the trace determines, in that order.
   */
  method Serve(dev: Blocks, trace: seq<nat>, loads: seq<bool>)
    requires dev.Valid() && dev.cache.keys == [] && |loads| == |trace|
    requires forall b <- trace :: b in dev.disk.store
    modifies dev.Footprint()
    ensures dev.Valid() && dev.cache.keys == Run(trace, dev.cache.N)
  {
    hide LRUCache.Valid, Blocks.View, Run, Touch, FlushedAt;
    ghost var n, known := dev.cache.N, dev.disk.store.Keys;
    assert trace[..0] == [];
    RunEmpty(n);
    for i := 0 to |trace|
      invariant dev.Valid() && fresh(dev.Footprint() - old(dev.Footprint())) && dev.disk.store.Keys == known
      invariant dev.cache.keys == Run(trace[..i], n)
    {
      RunNext(trace, i, n);
      assert trace[i] in trace;
      if loads[i] {
        var buff := dev.ReadBlock(trace[i]);
      } else {
        var buff := dev.GetBlock(trace[i]);
      }
    }
    assert trace[..|trace|] == trace;
  }

  lemma RunEmpty(cap: nat)
    ensures Run([], cap) == []
  {
  }
}
