/**
 * Copying arrays of fixed-size records to and from runs of consecutive blocks:
 * read_blocks and write_blocks of src/lib/fs.cc.
 */
module BlockRuns {
  import opened Common
  import opened Ring
  import opened LruCache
  import opened BlockLayer

  /** The record sizes for which records never straddle a block boundary. */
  ghost predicate Packs(size: nat) {
    size != 0 && BLOCK_SIZE % size == 0
  }

  /** The byte offset of record i, as the loops reach it: by advancing size bytes at a time. */
  function BytePos(i: nat, size: nat): nat {
    if i == 0 then 0 else BytePos(i - 1, size) + size
  }

  lemma {:induction false} BytePosIsProduct(i: nat, size: nat)
    ensures BytePos(i, size) == i * size
  {
    if i != 0 {
      BytePosIsProduct(i - 1, size);
      assert i * size == (i - 1) * size + size;
    }
  }

  lemma {:induction false} BytePosMonotone(i: nat, j: nat, size: nat)
    requires i <= j
    ensures BytePos(i, size) <= BytePos(j, size)
    decreases j
  {
    if i < j {
      BytePosMonotone(i, j - 1, size);
    }
  }

  lemma ProductRegroup(size: nat, per: nat, q: nat, r: nat)
    ensures (q * per + r) * size == q * (size * per) + r * size
  {
  }

  lemma ProductBelow(size: nat, per: nat, r: nat)
    requires r < per
    ensures r * size + size <= size * per
  {
    assert (r + 1) * size <= per * size;
  }

  /** Record i is record r of block q, where a block has per records. */
  lemma RecordOffset(size: nat, per: nat, q: nat, r: nat)
    requires size * per == BLOCK_SIZE && r < per
    ensures (q * per + r) * size == q * BLOCK_SIZE + r * size && r * size + size <= BLOCK_SIZE
  {
    ProductRegroup(size, per, q, r);
    ProductBelow(size, per, r);
  }

  lemma RecordsPerBlock(size: nat) returns (per: nat)
    requires Packs(size)
    ensures per > 0 && size * per == BLOCK_SIZE
  {
    per := BLOCK_SIZE / size;
  }

  lemma Divided(i: nat, per: nat) returns (q: nat, r: nat)
    requires per > 0
    ensures i == q * per + r && r < per
  {
    q, r := i / per, i % per;
  }

  lemma RecordPlace(size: nat, i: nat) returns (q: nat, off: nat)
    requires Packs(size)
    ensures BytePos(i, size) == q * BLOCK_SIZE + off && off + size <= BLOCK_SIZE
  {
    hide Packs, BytePos;
    var per := RecordsPerBlock(size);
    var r;
    q, r := Divided(i, per);
    BytePosIsProduct(i, size);
    RecordOffset(size, per, q, r);
    off := r * size;
  }

  /** A record starts on a record boundary of its block, so it fits. */
  lemma RecordFits(size: nat, i: nat)
    requires Packs(size)
    ensures BytePos(i, size) % BLOCK_SIZE + size <= BLOCK_SIZE
  {
    hide BytePos;
    var q, off := RecordPlace(size, i);
    OffsetInBlock(BytePos(i, size), q, off);
  }

  lemma OffsetInBlock(p: nat, q: nat, off: nat)
    requires p == q * BLOCK_SIZE + off && off < BLOCK_SIZE
    ensures p / BLOCK_SIZE == q && p % BLOCK_SIZE == off
  {
  }

  /** How many blocks a run of count records touches; the first one is touched even for none. */
  function Span(count: nat, size: nat): nat {
    var bytes := BytePos(count, size);
    if bytes == 0 then 1 else (bytes - 1) / BLOCK_SIZE + 1
  }

  /** In numbers: as many blocks as the bytes need, and at least one. */
  lemma SpanInBlocks(count: nat, size: nat)
    ensures Span(count, size) == if count * size == 0 then 1 else (count * size + 1023) / 1024
  {
    BytePosIsProduct(count, size);
    Ceiling(count * size);
  }

  lemma Ceiling(bytes: nat)
    ensures bytes > 0 ==> (bytes - 1) / 1024 + 1 == (bytes + 1023) / 1024
  {
  }

  ghost predicate OnDisk(view: Image, start: nat, span: nat) {
    forall b :: start <= b < start + span ==> b in view
  }

  /** The size bytes at byte position p of the run from block start are data. */
  ghost predicate Holds(view: Image, start: nat, p: nat, size: nat, data: seq<Byte>) {
    var b, off := start + p / BLOCK_SIZE, p % BLOCK_SIZE;
    b in view && off + size <= BLOCK_SIZE && view[b][off..off + size] == data
  }

  /** The run from block start holds these records, one after the other. */
  ghost predicate HoldsAll(view: Image, start: nat, size: nat, items: seq<seq<Byte>>) {
    forall i :: 0 <= i < |items| ==> HoldsRecord(view, start, size, items, i)
  }

  ghost predicate HoldsRecord(view: Image, start: nat, size: nat, items: seq<seq<Byte>>, i: nat)
    requires i < |items|
  {
    Holds(view, start, BytePos(i, size), size, items[i])
  }

  /** Records in bytes: byte j of record i is byte i * size + j of the run, counted through its blocks. */
  lemma HeldInBytes(view: Image, start: nat, size: nat, items: seq<seq<Byte>>, i: nat, j: nat)
    requires HoldsAll(view, start, size, items) && Packs(size) && i < |items| && |items[i]| == size && j < size
    ensures var p := i * size + j;
      start + p / 0x400 in view && items[i][j] == view[start + p / 0x400][p % 0x400]
  {
    hide Packs, BytePos;
    assert HoldsRecord(view, start, size, items, i);
    BytePosIsProduct(i, size);
    var b := BytePos(i, size);
    var q, off := RecordPlace(size, i);
    OffsetInBlock(b, q, off);
    OffsetInBlock(b + j, q, off + j);
    assert items[i][j] == view[start + q][off..off + size][j];
  }

  lemma HoldsAllAppend(view: Image, start: nat, size: nat, items: seq<seq<Byte>>, data: seq<Byte>)
    requires HoldsAll(view, start, size, items)
    requires Holds(view, start, BytePos(|items|, size), size, data)
    ensures HoldsAll(view, start, size, items + [data])
  {
    forall i | 0 <= i < |items + [data]| ensures HoldsRecord(view, start, size, items + [data], i) {
      if i < |items| {
        assert HoldsRecord(view, start, size, items, i);
      }
    }
  }

  lemma FlushedTwice(a: Image, b: Image, c: Image, view: Image)
    requires Flushed(a, view, b) && Flushed(b, view, c)
    ensures Flushed(a, view, c)
  {
    forall x | x in c ensures FlushedAt(a, view, c, x) {
      assert FlushedAt(a, view, b, x) && FlushedAt(b, view, c, x);
    }
  }

  /** Block and offset of byte position p, where the end of a block is not yet the next block. */
  ghost predicate At(start: nat, p: nat, bno: nat, off: nat) {
    start <= bno && off <= BLOCK_SIZE && (bno - start) * BLOCK_SIZE + off == p
  }

  lemma NextBlock(start: nat, count: nat, size: nat, i: nat, bno: nat)
    requires Packs(size) && i < count && At(start, BytePos(i, size), bno, BLOCK_SIZE)
    ensures bno + 1 < start + Span(count, size) && At(start, BytePos(i, size), bno + 1, 0)
  {
    BytePosMonotone(i + 1, count, size);
  }

  lemma InBlock(start: nat, size: nat, i: nat, bno: nat, off: nat)
    requires Packs(size) && At(start, BytePos(i, size), bno, off) && off < BLOCK_SIZE
    ensures bno == start + BytePos(i, size) / BLOCK_SIZE && off == BytePos(i, size) % BLOCK_SIZE
    ensures off + size <= BLOCK_SIZE && At(start, BytePos(i + 1, size), bno, off + size)
  {
    OffsetInBlock(BytePos(i, size), bno - start, off);
    RecordFits(size, i);
  }

  /** Copying out the bytes at the loop's position extends the records read by one. */
  lemma ReadStep(view: Image, start: nat, size: nat, items: seq<seq<Byte>>, bno: nat, off: nat)
    requires HoldsAll(view, start, size, items) && Packs(size) && bno in view
    requires At(start, BytePos(|items|, size), bno, off) && off < BLOCK_SIZE
    ensures off + size <= BLOCK_SIZE && At(start, BytePos(|items| + 1, size), bno, off + size)
    ensures HoldsAll(view, start, size, items + [view[bno][off..off + size]])
  {
    hide HoldsAll, Packs, BytePos;
    InBlock(start, size, |items|, bno, off);
    HoldsAllAppend(view, start, size, items, view[bno][off..off + size]);
  }

  /** read_blocks: the records of a run, in order; nothing changes but the cache. */
  method ReadBlocks(dev: Blocks, start: nat, count: nat, size: nat) returns (out: seq<seq<Byte>>)
    requires dev.Valid() && Packs(size) && OnDisk(dev.View(), start, Span(count, size))
    modifies dev.Footprint()
    ensures dev.Valid() && fresh(dev.Footprint() - old(dev.Footprint()))
    ensures dev.View() == old(dev.View()) && Flushed(old(dev.disk.store), old(dev.View()), dev.disk.store)
    ensures |out| == count && HoldsAll(dev.View(), start, size, out)
  {
    hide LRUCache.Valid, Blocks.View, Flushed;
    ghost var view := dev.View();
    var bno: nat, off: nat := start, 0;
    dev.ViewKeys();
    assert bno in view;
    var buff := dev.ReadBlock(bno);
    out := [];
    for i := 0 to count
      invariant dev.Valid() && fresh(dev.Footprint() - old(dev.Footprint()))
      invariant dev.View() == view && Flushed(old(dev.disk.store), view, dev.disk.store)
      invariant At(start, BytePos(i, size), bno, off)
      invariant bno in view && buff.value == view[bno]
      invariant |out| == i && HoldsAll(view, start, size, out)
    {
      if off >= BLOCK_SIZE {
        NextBlock(start, count, size, i, bno);
        bno, off := bno + 1, 0;
        dev.ViewKeys();
        assert bno in view;
        ghost var store := dev.disk.store;
        buff := dev.ReadBlock(bno);
        FlushedTwice(old(dev.disk.store), store, dev.disk.store, view);
      }
      ReadStep(view, start, size, out, bno, off);
      out := out + [buff.value[off..off + size]];
      off := off + size;
    }
  }

  /** The block with data copied to offset off. */
  function Spliced(block: Block, off: nat, data: seq<Byte>): Block
    requires off + |data| <= BLOCK_SIZE
  {
    block[..off] + data + block[off + |data|..]
  }

  /** Bytes before the written position, in this or an earlier block, stay. */
  lemma PutKeeps(view: Image, start: nat, p: nat, size: nat, d: seq<Byte>, bno: nat, off: nat, data: seq<Byte>)
    requires Holds(view, start, p, size, d) && start <= bno && bno in view && off + |data| <= BLOCK_SIZE
    requires p + size <= (bno - start) * BLOCK_SIZE + off
    ensures Holds(view[bno := Spliced(view[bno], off, data)], start, p, size, d)
  {
    if start + p / BLOCK_SIZE == bno {
      var o := p % BLOCK_SIZE;
      assert o + size <= off;
      assert Spliced(view[bno], off, data)[o..o + size] == view[bno][o..o + size];
    }
  }

  lemma PutHolds(view: Image, start: nat, p: nat, bno: nat, off: nat, data: seq<Byte>)
    requires start <= bno && bno == start + p / BLOCK_SIZE && off == p % BLOCK_SIZE
    requires bno in view && off + |data| <= BLOCK_SIZE
    ensures Holds(view[bno := Spliced(view[bno], off, data)], start, p, |data|, data)
  {
  }

  /** Copying a record in at the loop's position extends the records written by one. */
  lemma PutStep(view: Image, start: nat, size: nat, items: seq<seq<Byte>>, data: seq<Byte>, bno: nat, off: nat)
    requires HoldsAll(view, start, size, items) && Packs(size) && bno in view && |data| == size
    requires At(start, BytePos(|items|, size), bno, off) && off < BLOCK_SIZE
    ensures off + size <= BLOCK_SIZE && At(start, BytePos(|items| + 1, size), bno, off + size)
    ensures HoldsAll(view[bno := Spliced(view[bno], off, data)], start, size, items + [data])
  {
    InBlock(start, size, |items|, bno, off);
    var view' := view[bno := Spliced(view[bno], off, data)];
    forall j | 0 <= j < |items| ensures HoldsRecord(view', start, size, items, j) {
      BytePosMonotone(j + 1, |items|, size);
      assert HoldsRecord(view, start, size, items, j);
      PutKeeps(view, start, BytePos(j, size), size, items[j], bno, off, data);
    }
    PutHolds(view, start, BytePos(|items|, size), bno, off, data);
    HoldsAllAppend(view', start, size, items, data);
  }

  /** Block b kept its meaning, and on disk it is as it was or flushed. */
  ghost predicate Untouched(view0: Image, store0: Image, view: Image, store: Image, b: nat) {
    && b in view0 && b in store0 && b in view && b in store
    && view[b] == view0[b] && (store[b] == store0[b] || store[b] == view0[b])
  }

  ghost predicate Synced(view: Image, store: Image, b: nat) {
    b in view && b in store && store[b] == view[b]
  }

  /**
   * Progress of write_blocks: the blocks before bno are written and on disk, block bno is being
   * filled, and all others mean what they meant, on disk at most flushed.
   */
  ghost predicate Writing(view0: Image, store0: Image, view: Image, store: Image, start: nat, bno: nat) {
    && view.Keys == view0.Keys == store.Keys == store0.Keys
    && (forall b {:trigger Untouched(view0, store0, view, store, b)} ::
          b in view0 && (b < start || bno < b) ==> Untouched(view0, store0, view, store, b))
    && (forall b {:trigger Synced(view, store, b)} :: b in view0 && start <= b < bno ==> Synced(view, store, b))
  }

  lemma WritingFill(view0: Image, store0: Image, view: Image, store: Image, start: nat, bno: nat, data: Block)
    requires Writing(view0, store0, view, store, start, bno) && start <= bno && bno in view
    ensures Writing(view0, store0, view[bno := data], store, start, bno)
  {
    var view' := view[bno := data];
    forall b | b in view0 && (b < start || bno < b) ensures Untouched(view0, store0, view', store, b) {
      assert Untouched(view0, store0, view, store, b);
    }
    forall b | b in view0 && start <= b < bno ensures Synced(view', store, b) {
      assert Synced(view, store, b);
    }
  }

  lemma WritingFirst(view0: Image, store0: Image, start: nat, stale: Block, store': Image)
    requires start in view0 && view0.Keys == store0.Keys && Flushed(store0, view0, store')
    ensures Writing(view0, store0, view0[start := stale], store', start, start)
  {
    var view' := view0[start := stale];
    forall b | b in view0 && b != start ensures Untouched(view0, store0, view', store', b) {
      assert FlushedAt(store0, view0, store', b);
    }
  }

  lemma WritingNext(view0: Image, store0: Image, view: Image, store: Image, start: nat, bno: nat,
                    stale: Block, store': Image)
    requires Writing(view0, store0, view, store, start, bno) && start <= bno && bno in view && bno + 1 in view
    requires Flushed(store[bno := view[bno]], view, store')
    ensures Writing(view0, store0, view[bno + 1 := stale], store', start, bno + 1)
  {
    var view', bno' := view[bno + 1 := stale], bno + 1;
    forall b | b in view0 && (b < start || bno' < b) ensures Untouched(view0, store0, view', store', b) {
      assert Untouched(view0, store0, view, store, b);
      assert FlushedAt(store[bno := view[bno]], view, store', b);
    }
    forall b | b in view0 && start <= b < bno' ensures Synced(view', store', b) {
      assert b < bno ==> Synced(view, store, b);
      assert FlushedAt(store[bno := view[bno]], view, store', b);
    }
  }

  /** Whatever comes into the next block does not touch the records written so far. */
  lemma NextKeeps(view: Image, start: nat, size: nat, items: seq<seq<Byte>>, bno: nat, stale: Block)
    requires HoldsAll(view, start, size, items) && size != 0
    requires At(start, BytePos(|items|, size), bno, BLOCK_SIZE)
    ensures HoldsAll(view[bno + 1 := stale], start, size, items)
  {
    var view' := view[bno + 1 := stale];
    forall j | 0 <= j < |items| ensures HoldsRecord(view', start, size, items, j) {
      BytePosMonotone(j + 1, |items|, size);
      assert HoldsRecord(view, start, size, items, j);
    }
  }

  /** Only the run changed, its blocks are on disk, and the rest of the disk was at most flushed. */
  ghost predicate Wrote(view0: Image, store0: Image, view: Image, store: Image, start: nat, span: nat) {
    && view.Keys == view0.Keys == store.Keys == store0.Keys
    && (forall b {:trigger Untouched(view0, store0, view, store, b)} ::
          b in view0 && !(start <= b < start + span) ==> Untouched(view0, store0, view, store, b))
    && (forall b {:trigger Synced(view, store, b)} ::
          b in view0 && start <= b < start + span ==> Synced(view, store, b))
  }

  /** Where the loop ends the last block of the run is the current one. */
  lemma LastBlock(start: nat, count: nat, size: nat, bno: nat, off: nat)
    requires At(start, BytePos(count, size), bno, off) && (off == 0 ==> bno == start)
    ensures bno + 1 == start + Span(count, size)
  {
  }

  lemma WritingDone(view0: Image, store0: Image, view: Image, store: Image, start: nat, bno: nat)
    requires Writing(view0, store0, view, store, start, bno) && start <= bno && bno in view
    ensures Wrote(view0, store0, view, store[bno := view[bno]], start, bno + 1 - start)
  {
    var store' := store[bno := view[bno]];
    forall b | b in view0 && (b < start || bno < b) ensures Untouched(view0, store0, view, store', b) {
      assert Untouched(view0, store0, view, store, b);
    }
    forall b | b in view0 && start <= b < bno + 1 ensures Synced(view, store', b) {
      assert b < bno ==> Synced(view, store, b);
    }
  }

  /** Between two records: done is written, and buff is the buffer of the current block bno. */
  ghost predicate Filling(dev: Blocks, view0: Image, store0: Image, start: nat, size: nat,
                          done: seq<seq<Byte>>, bno: nat, off: nat, buff: ListNode<Block>)
    reads dev.cache, dev.cache.table, dev.cache.order, dev.cache.made, dev.disk, buff
  {
    && dev.Valid()
    && bno in dev.cache.ix.cell && buff == dev.cache.ix.cell[bno] && buff in dev.cache.made
    && bno in dev.View() && buff.value == dev.View()[bno]
    && At(start, BytePos(|done|, size), bno, off)
    && Writing(view0, store0, dev.View(), dev.disk.store, start, bno)
    && HoldsAll(dev.View(), start, size, done)
  }

  /** Copies one record into the current buffer. */
  method PutRecord(dev: Blocks, ghost view0: Image, ghost store0: Image, start: nat, size: nat,
                   ghost done: seq<seq<Byte>>, item: seq<Byte>, bno: nat, off: nat, buff: ListNode<Block>)
    requires Filling(dev, view0, store0, start, size, done, bno, off, buff)
    requires Packs(size) && off < BLOCK_SIZE && |item| == size
    modifies dev.cache`ix, buff`value
    ensures Filling(dev, view0, store0, start, size, done + [item], bno, off + size, buff)
    ensures dev.Footprint() == old(dev.Footprint())
  {
    hide LRUCache.Valid, Blocks.View;
    PutStep(dev.View(), start, size, done, item, bno, off);
    WritingFill(view0, store0, dev.View(), dev.disk.store, start, bno, Spliced(buff.value, off, item));
    dev.cache.ResidentFacts(bno);
    dev.Fill(bno, buff, Spliced(buff.value, off, item));
  }

  lemma TakeNext<T>(s: seq<T>, i: nat)
    requires i < |s|
    ensures s[..i + 1] == s[..i] + [s[i]]
  {
  }

  /** Writes a cached block out and fetches a buffer for the next one. */
  method Advance(dev: Blocks, bno: nat) returns (next: ListNode<Block>)
    requires dev.Valid() && bno in dev.cache.ix.cell && bno + 1 in dev.View()
    modifies dev.Footprint()
    ensures dev.Valid() && fresh(dev.Footprint() - old(dev.Footprint()))
    ensures bno + 1 in dev.cache.ix.cell && next == dev.cache.ix.cell[bno + 1] && next in dev.cache.made
    ensures bno in old(dev.View()) && dev.View() == old(dev.View())[bno + 1 := next.value]
    ensures Flushed(old(dev.disk.store)[bno := old(dev.View())[bno]], old(dev.View()), dev.disk.store)
  {
    hide LRUCache.Valid, Blocks.View;
    dev.cache.ResidentFacts(bno);
    dev.ViewKeys();
    var ok := dev.WriteBlock(bno);
    next := dev.GetBlock(bno + 1);
    dev.cache.ResidentFacts(bno + 1);
  }

  /** At the end of a block: writes it out and fetches a buffer for the next one. */
  method NextBuffer(dev: Blocks, ghost view0: Image, ghost store0: Image, start: nat, size: nat,
                    ghost done: seq<seq<Byte>>, bno: nat, ghost buff: ListNode<Block>)
    returns (next: ListNode<Block>)
    requires Filling(dev, view0, store0, start, size, done, bno, BLOCK_SIZE, buff)
    requires Packs(size) && bno + 1 in dev.View()
    modifies dev.Footprint()
    ensures Filling(dev, view0, store0, start, size, done, bno + 1, 0, next)
    ensures fresh(dev.Footprint() - old(dev.Footprint()))
  {
    hide LRUCache.Valid, Blocks.View;
    ghost var view, store := dev.View(), dev.disk.store;
    next := Advance(dev, bno);
    NextKeeps(view, start, size, done, bno, next.value);
    WritingNext(view0, store0, view, store, start, bno, next.value, dev.disk.store);
  }

  /** One round of the loop of write_blocks. */
  method PutNext(dev: Blocks, ghost view0: Image, ghost store0: Image, start: nat, size: nat,
                 ghost done: seq<seq<Byte>>, item: seq<Byte>, bno: nat, off: nat, buff: ListNode<Block>)
    returns (bno': nat, off': nat, buff': ListNode<Block>)
    requires Filling(dev, view0, store0, start, size, done, bno, off, buff)
    requires Packs(size) && |item| == size && (off >= BLOCK_SIZE ==> bno + 1 in dev.View())
    modifies dev.Footprint()
    ensures Filling(dev, view0, store0, start, size, done + [item], bno', off', buff') && off' > 0
    ensures fresh(dev.Footprint() - old(dev.Footprint()))
  {
    hide LRUCache.Valid, Blocks.View;
    bno', off', buff' := bno, off, buff;
    if off' >= BLOCK_SIZE {
      buff' := NextBuffer(dev, view0, store0, start, size, done, bno', buff');
      bno', off' := bno' + 1, 0;
    }
    PutRecord(dev, view0, store0, start, size, done, item, bno', off', buff');
    off' := off' + size;
  }

  /** The loop of write_blocks, from a buffer for the first block to the buffer of the last. */
  method PutAll(dev: Blocks, ghost view0: Image, ghost store0: Image, start: nat, size: nat,
                items: seq<seq<Byte>>, first: ListNode<Block>)
    returns (bno: nat)
    requires Filling(dev, view0, store0, start, size, [], start, 0, first)
    requires Packs(size) && OnDisk(view0, start, Span(|items|, size))
    requires forall i :: 0 <= i < |items| ==> |items[i]| == size
    modifies dev.Footprint()
    ensures dev.Valid() && fresh(dev.Footprint() - old(dev.Footprint()))
    ensures bno in dev.cache.ix.cell && bno in dev.View() && bno + 1 == start + Span(|items|, size)
    ensures Writing(view0, store0, dev.View(), dev.disk.store, start, bno)
    ensures HoldsAll(dev.View(), start, size, items)
  {
    hide LRUCache.Valid, Blocks.View;
    ghost var done: seq<seq<Byte>> := [];
    var off: nat, buff := 0, first;
    bno := start;
    for i := 0 to |items|
      invariant done == items[..i] && Filling(dev, view0, store0, start, size, done, bno, off, buff)
      invariant fresh(dev.Footprint() - old(dev.Footprint()))
      invariant off == 0 ==> bno == start
    {
      if off >= BLOCK_SIZE {
        NextBlock(start, |items|, size, i, bno);
      }
      bno, off, buff := PutNext(dev, view0, store0, start, size, done, items[i], bno, off, buff);
      done := done + [items[i]];
      TakeNext(items, i);
    }
    assert done == items;
    LastBlock(start, |items|, size, bno, off);
  }

  /**
   * write_blocks: afterwards the run holds the records, in order, in memory and on disk. The first
   * block is fetched and written out even when there is no record.
   */
  method WriteBlocks(dev: Blocks, start: nat, items: seq<seq<Byte>>, size: nat)
    requires dev.Valid() && Packs(size) && OnDisk(dev.View(), start, Span(|items|, size))
    requires forall i :: 0 <= i < |items| ==> |items[i]| == size
    modifies dev.Footprint()
    ensures dev.Valid() && fresh(dev.Footprint() - old(dev.Footprint()))
    ensures HoldsAll(dev.View(), start, size, items)
    ensures Wrote(old(dev.View()), old(dev.disk.store), dev.View(), dev.disk.store, start, Span(|items|, size))
  {
    hide LRUCache.Valid, Blocks.View;
    ghost var view0, store0 := dev.View(), dev.disk.store;
    dev.ViewKeys();
    assert start in view0;
    var first := dev.GetBlock(start);
    dev.cache.ResidentFacts(start);
    dev.ViewKeys();
    WritingFirst(view0, store0, start, first.value, dev.disk.store);
    var bno := PutAll(dev, view0, store0, start, size, items, first);
    WritingDone(view0, store0, dev.View(), dev.disk.store, start, bno);
    dev.cache.ResidentFacts(bno);
    var ok := dev.WriteBlock(bno);
  }
}
