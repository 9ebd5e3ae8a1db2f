/**
 * Loading the file system's in-memory tables from disk and writing them back: init_fs and the
 * sync functions of src/lib/fs.cc.
 */
module Persistence {
  import opened Common
  import opened Ring
  import opened LruCache
  import opened BlockLayer
  import opened BlockRuns

  const SUPER_BLOCK_BNO := 1
  const IMAP_START := 2
  /** sizeof(super_block), sizeof(d_super_block) and sizeof(d_inode). */
  const SUPER_BLOCK_SIZE := 39
  const DISK_SUPER_BLOCK_SIZE := 20
  const INODE_SIZE := 32
  const NUM_INODES := 128

  /** A little-endian 16-bit field. */
  function Half(bytes: seq<Byte>, at: nat): (h: nat)
    requires at + 2 <= |bytes|
  {
    var low: int, high: int := bytes[at], bytes[at + 1];
    low + 256 * high
  }

  /**
   * The in-memory tables: the super block's bytes, the bytes of the two bitmaps, and of each
   * entry of the inode table the part that is stored on disk.
   */
  datatype Tables = Tables(super: seq<Byte>, inodeMap: seq<Byte>, zoneMap: seq<Byte>, inodes: seq<seq<Byte>>) {
    ghost predicate Valid() {
      && |super| == SUPER_BLOCK_SIZE && |inodeMap| == 16 && |zoneMap| == 1280 && |inodes| == NUM_INODES
      && forall i :: 0 <= i < |inodes| ==> |inodes[i]| == INODE_SIZE
    }

    function NumInodes(): nat requires |super| == SUPER_BLOCK_SIZE { Half(super, 0) }
    function NumZones(): nat requires |super| == SUPER_BLOCK_SIZE { Half(super, 2) }
    function ImapBlocks(): nat requires |super| == SUPER_BLOCK_SIZE { Half(super, 4) }
    function ZmapBlocks(): nat requires |super| == SUPER_BLOCK_SIZE { Half(super, 6) }

    function ZmapStart(): nat requires |super| == SUPER_BLOCK_SIZE { IMAP_START + ImapBlocks() }
    function InodeStart(): nat requires |super| == SUPER_BLOCK_SIZE { IMAP_START + ImapBlocks() + ZmapBlocks() }

    /** The counts of the super block fit the tables in memory and the regions on disk. */
    ghost predicate Fits() {
      && |super| == SUPER_BLOCK_SIZE
      && NumInodes() < NUM_INODES && NumZones() / 8 <= 1280
      && Span(NumInodes() / 8, 1) <= ImapBlocks() && Span(NumZones() / 8, 1) <= ZmapBlocks()
    }

    /** What of the tables the sync functions write. */
    function ImapRecords(): seq<seq<Byte>>
      requires Valid() && Fits()
    {
      Singles(inodeMap[..NumInodes() / 8])
    }

    function ZmapRecords(): seq<seq<Byte>>
      requires Valid() && Fits()
    {
      Singles(zoneMap[..NumZones() / 8])
    }

    function InodeRecords(): seq<seq<Byte>>
      requires Valid() && Fits()
    {
      inodes[1..NumInodes() + 1]
    }

    /** The image holds these tables. */
    ghost predicate StoredIn(image: Image)
      requires Valid() && Fits()
    {
      && SUPER_BLOCK_BNO in image
      && image[SUPER_BLOCK_BNO][..DISK_SUPER_BLOCK_SIZE] == super[..DISK_SUPER_BLOCK_SIZE]
      && HoldsAll(image, IMAP_START, 1, ImapRecords())
      && HoldsAll(image, ZmapStart(), 1, ZmapRecords())
      && HoldsAll(image, InodeStart(), INODE_SIZE, InodeRecords())
    }
  }

  /** A byte array as one-byte records. */
  function Singles(bytes: seq<Byte>): (r: seq<seq<Byte>>)
    ensures |r| == |bytes|
    ensures forall i :: 0 <= i < |r| ==> r[i] == [bytes[i]]
  {
    seq(|bytes|, i requires 0 <= i < |bytes| => [bytes[i]])
  }

  /** Inode table entry k is the 32 bytes at this offset of this block. */
  ghost predicate InodeInBytes(image: Image, record: seq<Byte>, b: nat, offset: nat) {
    && b in image && |record| == 32 && offset + 32 <= 0x400
    && forall j :: 0 <= j < 32 ==> record[j] == image[b][offset + j]
  }

  ghost predicate ByteAt(image: Image, byte: Byte, b: nat, offset: nat) {
    b in image && offset < 0x400 && byte == image[b][offset]
  }

  /** A 16-bit field of the super block. */
  function Field(t: Tables, at: nat): (n: nat)
    requires at + 2 <= |t.super|
    ensures n == t.super[at] as int + 256 * t.super[at + 1] as int
  {
    Half(t.super, at)
  }

  /**
   * The layout of the tables on disk, in bytes. The first 16-bit fields of the super block count
   * inodes, zones, blocks of the inode bitmap and blocks of the zone bitmap. From block 2 on come the
   * inode bitmap, the zone bitmap and the inodes, these 32 to a block and from 1 on.
   */
  ghost predicate ImapLaidOut(t: Tables, image: Image)
    requires t.Valid()
  {
    Field(t, 0) / 8 <= 16 &&
    forall j :: 0 <= j < Field(t, 0) / 8 ==> ByteAt(image, t.inodeMap[j], 2 + j / 1024, j % 1024)
  }

  ghost predicate ZmapLaidOut(t: Tables, image: Image)
    requires t.Valid()
  {
    Field(t, 2) / 8 <= 1280 &&
    forall j :: 0 <= j < Field(t, 2) / 8 ==> ByteAt(image, t.zoneMap[j], 2 + Field(t, 4) + j / 1024, j % 1024)
  }

  ghost predicate InodesLaidOut(t: Tables, image: Image)
    requires t.Valid()
  {
    Field(t, 0) < 128 &&
    forall k :: 1 <= k <= Field(t, 0) ==>
      InodeInBytes(image, t.inodes[k], 2 + Field(t, 4) + Field(t, 6) + (k - 1) / 32, (k - 1) % 32 * 32)
  }

  /** All the tables, and block 1 starts with the super block. */
  ghost predicate LaidOut(t: Tables, image: Image)
    requires t.Valid()
  {
    && 1 in image && (forall j :: 0 <= j < 20 ==> t.super[j] == image[1][j])
    && ImapLaidOut(t, image) && ZmapLaidOut(t, image) && InodesLaidOut(t, image)
  }

  lemma MapInBytes(image: Image, start: nat, bytes: seq<Byte>, j: nat)
    requires HoldsAll(image, start, 1, Singles(bytes)) && j < |bytes|
    ensures ByteAt(image, bytes[j], start + j / 1024, j % 1024)
  {
    HeldInBytes(image, start, 1, Singles(bytes), j, 0);
  }

  lemma InodeBytes(image: Image, start: nat, records: seq<seq<Byte>>, i: nat)
    requires HoldsAll(image, start, 32, records) && i < |records| && |records[i]| == 32
    ensures InodeInBytes(image, records[i], start + i / 32, i % 32 * 32)
  {
    hide HoldsAll;
    var b, offset := start + i / 32, i % 32 * 32;
    forall j | 0 <= j < 32 ensures b in image && records[i][j] == image[b][offset + j] {
      HeldInBytes(image, start, 32, records, i, j);
      OffsetInBlock(i * 32 + j, i / 32, offset + j);
    }
    HeldInBytes(image, start, 32, records, i, 0);
    OffsetInBlock(i * 32, i / 32, offset);
  }

  lemma ImapIsLaidOut(t: Tables, image: Image)
    requires t.Valid() && t.Fits() && HoldsAll(image, IMAP_START, 1, t.ImapRecords())
    ensures ImapLaidOut(t, image)
  {
    hide HoldsAll;
    var n := Field(t, 0);
    forall j | 0 <= j < n / 8 ensures ByteAt(image, t.inodeMap[j], 2 + j / 1024, j % 1024) {
      MapInBytes(image, 2, t.inodeMap[..n / 8], j);
    }
  }

  lemma ZmapIsLaidOut(t: Tables, image: Image)
    requires t.Valid() && t.Fits() && HoldsAll(image, t.ZmapStart(), 1, t.ZmapRecords())
    ensures ZmapLaidOut(t, image)
  {
    hide HoldsAll;
    var z := Field(t, 2);
    forall j | 0 <= j < z / 8 ensures ByteAt(image, t.zoneMap[j], 2 + Field(t, 4) + j / 1024, j % 1024) {
      MapInBytes(image, 2 + Field(t, 4), t.zoneMap[..z / 8], j);
    }
  }

  lemma InodesAreLaidOut(t: Tables, image: Image)
    requires t.Valid() && t.Fits() && HoldsAll(image, t.InodeStart(), INODE_SIZE, t.InodeRecords())
    ensures InodesLaidOut(t, image)
  {
    hide HoldsAll;
    var start := 2 + Field(t, 4) + Field(t, 6);
    forall k | 1 <= k <= Field(t, 0)
      ensures InodeInBytes(image, t.inodes[k], start + (k - 1) / 32, (k - 1) % 32 * 32)
    {
      assert t.InodeRecords()[k - 1] == t.inodes[k];
      InodeBytes(image, start, t.InodeRecords(), k - 1);
    }
  }

  /** Tables that an image stores are laid out on it as the disk format has it. */
  lemma StoredIsLaidOut(t: Tables, image: Image)
    requires t.Valid() && t.Fits() && t.StoredIn(image)
    ensures LaidOut(t, image)
  {
    hide HoldsAll, ImapLaidOut, ZmapLaidOut, InodesLaidOut;
    ImapIsLaidOut(t, image);
    ZmapIsLaidOut(t, image);
    InodesAreLaidOut(t, image);
    forall j | 0 <= j < 20 ensures t.super[j] == image[1][j] {
      assert t.super[j] == t.super[..20][j] && image[1][j] == image[1][..20][j];
    }
  }

  /** Records of a run are determined by the image. */
  lemma HoldsAllUnique(image: Image, start: nat, size: nat, a: seq<seq<Byte>>, b: seq<seq<Byte>>)
    requires HoldsAll(image, start, size, a) && HoldsAll(image, start, size, b) && |a| == |b|
    ensures a == b
  {
    forall i | 0 <= i < |a| ensures a[i] == b[i] {
      assert HoldsRecord(image, start, size, a, i) && HoldsRecord(image, start, size, b, i);
    }
  }

  /** Images that agree on the blocks of a run hold the same records there. */
  lemma HoldsAllAgree(image: Image, image': Image, start: nat, size: nat, items: seq<seq<Byte>>)
    requires HoldsAll(image, start, size, items) && Packs(size)
    requires forall b :: start <= b < start + Span(|items|, size) ==> b in image && b in image' && image[b] == image'[b]
    ensures HoldsAll(image', start, size, items)
  {
    forall i | 0 <= i < |items| ensures HoldsRecord(image', start, size, items, i) {
      assert HoldsRecord(image, start, size, items, i);
      BytePosMonotone(i + 1, |items|, size);
      var b := start + BytePos(i, size) / BLOCK_SIZE;
      assert start <= b < start + Span(|items|, size);
    }
  }

  /** b has what init_fs recovers of a: all that sync_all writes, by the counts at the front of the super block. */
  ghost predicate Recovered(a: Tables, b: Tables)
    requires a.Valid() && b.Valid()
  {
    var super: seq<int> := a.super;
    var inodes, zones := super[0] + 256 * super[1], super[2] + 256 * super[3];
    && inodes < 128 && zones / 8 <= 1280
    && b.super[..20] == a.super[..20]
    && b.inodeMap[..inodes / 8] == a.inodeMap[..inodes / 8]
    && b.zoneMap[..zones / 8] == a.zoneMap[..zones / 8]
    && b.inodes[1..inodes + 1] == a.inodes[1..inodes + 1]
  }

  /**
   * Tables loaded from the image that other tables were stored in are those tables: the part of
   * the super block that is on disk, both bitmaps as far as they are written, and every inode.
   */
  lemma LoadedAreStored(a: Tables, b: Tables, image: Image)
    requires a.Valid() && a.Fits() && a.StoredIn(image)
    requires b.Valid() && b.Fits() && b.StoredIn(image)
    ensures Recovered(a, b)
  {
    hide HoldsAll, Half, Singles;
    SameCounts(a, b);
    CountFields(a);
    HoldsAllUnique(image, IMAP_START, 1, a.ImapRecords(), b.ImapRecords());
    HoldsAllUnique(image, a.ZmapStart(), 1, a.ZmapRecords(), b.ZmapRecords());
    HoldsAllUnique(image, a.InodeStart(), INODE_SIZE, a.InodeRecords(), b.InodeRecords());
    SinglesInjective(a.inodeMap[..a.NumInodes() / 8], b.inodeMap[..a.NumInodes() / 8]);
    SinglesInjective(a.zoneMap[..a.NumZones() / 8], b.zoneMap[..a.NumZones() / 8]);
  }

  lemma CountFields(t: Tables)
    requires t.Valid()
    ensures t.NumInodes() == Field(t, 0) && t.NumZones() == Field(t, 2)
  {
  }

  lemma SameCounts(a: Tables, b: Tables)
    requires |a.super| == |b.super| == SUPER_BLOCK_SIZE
    requires a.super[..DISK_SUPER_BLOCK_SIZE] == b.super[..DISK_SUPER_BLOCK_SIZE]
    ensures a.NumInodes() == b.NumInodes() && a.NumZones() == b.NumZones()
    ensures a.ImapBlocks() == b.ImapBlocks() && a.ZmapBlocks() == b.ZmapBlocks()
  {
    forall i | 0 <= i < 8 ensures a.super[i] == b.super[i] {
      assert a.super[i] == a.super[..DISK_SUPER_BLOCK_SIZE][i];
    }
  }

  lemma SinglesInjective(a: seq<Byte>, b: seq<Byte>)
    requires Singles(a) == Singles(b)
    ensures a == b
  {
    forall i | 0 <= i < |a| ensures i < |b| && a[i] == b[i] {
      assert Singles(a)[i] == Singles(b)[i];
    }
  }

  /** A run holds these records, and on disk as well. */
  ghost predicate Settled(view: Image, store: Image, start: nat, size: nat, items: seq<seq<Byte>>) {
    && HoldsAll(view, start, size, items)
    && forall b {:trigger Synced(view, store, b)} :: start <= b < start + Span(|items|, size) ==> Synced(view, store, b)
  }

  lemma WroteSettles(view0: Image, store0: Image, view: Image, store: Image, start: nat, size: nat,
                     items: seq<seq<Byte>>)
    requires Wrote(view0, store0, view, store, start, Span(|items|, size)) && HoldsAll(view, start, size, items)
    requires OnDisk(view0, start, Span(|items|, size))
    ensures Settled(view, store, start, size, items)
  {
  }

  /** Writing one run does not disturb another that lies elsewhere. */
  lemma SettledKept(view0: Image, store0: Image, view: Image, store: Image, start: nat, span: nat,
                    at: nat, size: nat, items: seq<seq<Byte>>)
    requires Wrote(view0, store0, view, store, start, span) && Settled(view0, store0, at, size, items)
    requires Packs(size) && (at + Span(|items|, size) <= start || start + span <= at)
    ensures Settled(view, store, at, size, items)
  {
    forall b | at <= b < at + Span(|items|, size)
      ensures Synced(view, store, b) && b in view0 && view[b] == view0[b]
    {
      assert Synced(view0, store0, b);
      assert Untouched(view0, store0, view, store, b);
    }
    HoldsAllAgree(view0, view, at, size, items);
  }

  lemma SettledOnDisk(view: Image, store: Image, start: nat, size: nat, items: seq<seq<Byte>>)
    requires Settled(view, store, start, size, items) && Packs(size)
    ensures HoldsAll(store, start, size, items)
  {
    forall b | start <= b < start + Span(|items|, size) ensures b in view && b in store && store[b] == view[b] {
      assert Synced(view, store, b);
    }
    HoldsAllAgree(view, store, start, size, items);
  }

  ghost predicate SuperSettled(view: Image, store: Image, super: seq<Byte>)
    requires |super| == SUPER_BLOCK_SIZE
  {
    && Synced(view, store, SUPER_BLOCK_BNO)
    && view[SUPER_BLOCK_BNO][..DISK_SUPER_BLOCK_SIZE] == super[..DISK_SUPER_BLOCK_SIZE]
  }

  lemma SuperKept(view0: Image, store0: Image, view: Image, store: Image, start: nat, span: nat, super: seq<Byte>)
    requires |super| == SUPER_BLOCK_SIZE && SuperSettled(view0, store0, super)
    requires Wrote(view0, store0, view, store, start, span) && SUPER_BLOCK_BNO < start
    ensures SuperSettled(view, store, super)
  {
    assert Untouched(view0, store0, view, store, SUPER_BLOCK_BNO);
  }

  /** The block with the disk part of the super block copied to its front. */
  function WithSuper(block: Block, super: seq<Byte>): (r: Block)
    requires |super| == SUPER_BLOCK_SIZE
    ensures r[..DISK_SUPER_BLOCK_SIZE] == super[..DISK_SUPER_BLOCK_SIZE]
  {
    Spliced(block, 0, super[..DISK_SUPER_BLOCK_SIZE])
  }

  lemma SuperWritten(view: Image, store: Image, data: Block, super: seq<Byte>)
    requires |super| == SUPER_BLOCK_SIZE && SUPER_BLOCK_BNO in view && SUPER_BLOCK_BNO in store
    requires view[SUPER_BLOCK_BNO] == data && store[SUPER_BLOCK_BNO] == view[SUPER_BLOCK_BNO]
    requires data[..DISK_SUPER_BLOCK_SIZE] == super[..DISK_SUPER_BLOCK_SIZE]
    ensures SuperSettled(view, store, super)
  {
  }

  /** Block b belongs to the super block, a bitmap or the inode table. */
  ghost predicate InTables(t: Tables, b: nat)
    requires t.Valid()
  {
    || b == SUPER_BLOCK_BNO
    || IMAP_START <= b < IMAP_START + Span(t.NumInodes() / 8, 1)
    || t.ZmapStart() <= b < t.ZmapStart() + Span(t.NumZones() / 8, 1)
    || t.InodeStart() <= b < t.InodeStart() + Span(t.NumInodes(), INODE_SIZE)
  }

  /** No block of a file changed its meaning. */
  ghost predicate FilesKept(t: Tables, view0: Image, view: Image)
    requires t.Valid()
  {
    view.Keys == view0.Keys && forall b {:trigger view[b]} :: b in view && !InTables(t, b) ==> view[b] == view0[b]
  }

  /** The boot block, and all blocks behind the inode table, belong to files. */
  lemma BeyondTables(t: Tables, b: nat)
    requires t.Valid() && t.Fits()
    ensures var super: seq<int> := t.super;
      var inodes, i, m := super[0] + 256 * super[1], super[4] + 256 * super[5], super[6] + 256 * super[7];
      b == 0 || (b >= 3 + i + m && b >= 2 + i + m + (inodes + 31) / 32) ==> !InTables(t, b)
  {
    var n := t.NumInodes();
    BytePosIsProduct(n, 32);
  }

  lemma FilesKeptTwice(t: Tables, a: Image, b: Image, c: Image)
    requires t.Valid() && FilesKept(t, a, b) && FilesKept(t, b, c)
    ensures FilesKept(t, a, c)
  {
    hide InTables;
    forall x | x in c && !InTables(t, x) ensures c[x] == a[x] {
      assert c[x] == b[x];
    }
  }

  lemma RunKeepsFiles(t: Tables, view0: Image, store0: Image, view: Image, store: Image, start: nat, span: nat)
    requires t.Valid() && Wrote(view0, store0, view, store, start, span)
    requires forall b :: start <= b < start + span ==> InTables(t, b)
    ensures FilesKept(t, view0, view)
  {
    hide InTables;
    forall b | b in view && !InTables(t, b) ensures view[b] == view0[b] {
      assert Untouched(view0, store0, view, store, b);
    }
  }

  /** Each of the three runs lies in the tables. */
  lemma RunsInTables(t: Tables)
    requires t.Valid()
    ensures forall b :: IMAP_START <= b < IMAP_START + Span(t.NumInodes() / 8, 1) ==> InTables(t, b)
    ensures forall b :: t.ZmapStart() <= b < t.ZmapStart() + Span(t.NumZones() / 8, 1) ==> InTables(t, b)
    ensures forall b :: t.InodeStart() <= b < t.InodeStart() + Span(t.NumInodes(), INODE_SIZE) ==> InTables(t, b)
  {
  }

  lemma SuperKeepsFiles(t: Tables, view0: Image, data: Block)
    requires t.Valid() && SUPER_BLOCK_BNO in view0
    ensures FilesKept(t, view0, view0[SUPER_BLOCK_BNO := data])
  {
  }

  lemma InodesKeepFiles(t: Tables, v0: Image, v: Image, d: Image, v': Image, d': Image)
    requires t.Valid() && FilesKept(t, v0, v)
    requires Wrote(v, d, v', d', t.InodeStart(), Span(t.NumInodes(), INODE_SIZE))
    ensures FilesKept(t, v0, v')
  {
    hide Wrote, InTables, FilesKept;
    RunsInTables(t);
    RunKeepsFiles(t, v, d, v', d', t.InodeStart(), Span(t.NumInodes(), INODE_SIZE));
    FilesKeptTwice(t, v0, v, v');
  }

  /** Writing the inodes last completes what is stored. */
  lemma InodesLast(t: Tables, v: Image, d: Image, v': Image, d': Image)
    requires t.Valid() && t.Fits()
    requires SuperSettled(v, d, t.super) && Settled(v, d, IMAP_START, 1, t.ImapRecords())
    requires Settled(v, d, t.ZmapStart(), 1, t.ZmapRecords())
    requires Wrote(v, d, v', d', t.InodeStart(), Span(t.NumInodes(), INODE_SIZE))
    requires OnDisk(v', t.InodeStart(), Span(t.NumInodes(), INODE_SIZE))
    requires HoldsAll(v', t.InodeStart(), INODE_SIZE, t.InodeRecords())
    ensures t.StoredIn(v') && t.StoredIn(d')
  {
    hide Wrote, HoldsAll, Settled;
    var start, span := t.InodeStart(), Span(t.NumInodes(), INODE_SIZE);
    WroteKeys(v, d, v', d', start, span);
    SuperKept(v, d, v', d', start, span, t.super);
    SettledKept(v, d, v', d', start, span, IMAP_START, 1, t.ImapRecords());
    SettledKept(v, d, v', d', start, span, t.ZmapStart(), 1, t.ZmapRecords());
    WroteSettles(v, d, v', d', start, INODE_SIZE, t.InodeRecords());
    SettledOnDisk(v', d', IMAP_START, 1, t.ImapRecords());
    SettledOnDisk(v', d', t.ZmapStart(), 1, t.ZmapRecords());
    SettledOnDisk(v', d', t.InodeStart(), INODE_SIZE, t.InodeRecords());
  }

  lemma WroteKeys(v: Image, d: Image, v': Image, d': Image, start: nat, span: nat)
    requires Wrote(v, d, v', d', start, span)
    ensures v.Keys == v'.Keys
  {
  }

  lemma OnDiskPart(view: Image, start: nat, span: nat, part: nat)
    requires OnDisk(view, start, span) && part <= span
    ensures OnDisk(view, start, part)
  {
  }

  /** The sequence with part copied over it from index at on. */
  function Overlaid<T>(s: seq<T>, at: nat, part: seq<T>): (r: seq<T>)
    requires at + |part| <= |s|
    ensures |r| == |s| && r[at..at + |part|] == part
    ensures forall i :: 0 <= i < |s| ==> r[i] == if at <= i < at + |part| then part[i - at] else s[i]
  {
    s[..at] + part + s[at + |part|..]
  }

  /** Elements outside lo to hi are as they were. */
  ghost predicate SameBut<T>(a: seq<T>, b: seq<T>, lo: nat, hi: nat) {
    |a| == |b| && forall k {:trigger b[k]} :: 0 <= k < |a| && !(lo <= k < hi) ==> b[k] == a[k]
  }

  /** The bytes of one-byte records. */
  function Joined(records: seq<seq<Byte>>): (r: seq<Byte>)
    requires forall i :: 0 <= i < |records| ==> |records[i]| == 1
    ensures |r| == |records| && Singles(r) == records
  {
    var r := seq(|records|, i requires 0 <= i < |records| => records[i][0]);
    assert forall i :: 0 <= i < |records| ==> Singles(r)[i] == records[i];
    r
  }

  lemma RecordSizes(image: Image, start: nat, size: nat, items: seq<seq<Byte>>)
    requires HoldsAll(image, start, size, items)
    ensures forall i :: 0 <= i < |items| ==> |items[i]| == size
  {
    forall i | 0 <= i < |items| ensures |items[i]| == size {
      assert HoldsRecord(image, start, size, items, i);
    }
  }

  /** Loading the maps does not disturb what was loaded before. */
  lemma LoadedInOrder(t: Tables, t': Tables, image: Image)
    requires t.Valid() && t.Fits() && t'.Valid() && t'.Fits()
    requires t' == t.(inodeMap := t'.inodeMap, zoneMap := t'.zoneMap)
    requires SUPER_BLOCK_BNO in image && t.super == image[SUPER_BLOCK_BNO][..SUPER_BLOCK_SIZE]
    requires HoldsAll(image, t.InodeStart(), INODE_SIZE, t.InodeRecords())
    requires HoldsAll(image, IMAP_START, 1, t'.ImapRecords())
    requires HoldsAll(image, t'.ZmapStart(), 1, t'.ZmapRecords())
    ensures t'.StoredIn(image)
  {
    hide HoldsAll;
  }

  class FileSystem {
    const dev: Blocks
    var tables: Tables

    constructor (dev: Blocks, tables: Tables)
      ensures this.dev == dev && this.tables == tables
    {
      this.dev, this.tables := dev, tables;
    }

    /** All the blocks that the super block's counts claim are on the disk. */
    ghost predicate Mounted()
      reads this, dev, dev.cache, dev.cache.table, dev.cache.order, dev.cache.made, dev.disk
    {
      && dev.Valid() && tables.Valid() && tables.Fits() && SUPER_BLOCK_BNO in dev.View()
      && OnDisk(dev.View(), IMAP_START, tables.ImapBlocks())
      && OnDisk(dev.View(), tables.ZmapStart(), tables.ZmapBlocks())
      && OnDisk(dev.View(), tables.InodeStart(), Span(tables.NumInodes(), INODE_SIZE))
    }

    /** Gets a buffer for the super block and copies the disk part of the table to its front. */
    method FillSuperBlock() returns (ghost data: Block)
      requires Mounted()
      modifies dev.Footprint()
      ensures dev.Valid() && fresh(dev.Footprint() - old(dev.Footprint()))
      ensures data[..DISK_SUPER_BLOCK_SIZE] == tables.super[..DISK_SUPER_BLOCK_SIZE]
      ensures SUPER_BLOCK_BNO in dev.cache.keys && dev.View() == old(dev.View())[SUPER_BLOCK_BNO := data]
    {
      hide LRUCache.Valid, Blocks.View;
      dev.ViewKeys();
      var block := dev.GetBlock(SUPER_BLOCK_BNO);
      dev.cache.ResidentFacts(SUPER_BLOCK_BNO);
      data := WithSuper(block.value, tables.super);
      dev.Fill(SUPER_BLOCK_BNO, block, WithSuper(block.value, tables.super));
      dev.cache.ResidentFacts(SUPER_BLOCK_BNO);
    }

    method SyncSuperBlock()
      requires Mounted()
      modifies dev.Footprint()
      ensures Mounted() && fresh(dev.Footprint() - old(dev.Footprint()))
      ensures SUPER_BLOCK_BNO in dev.View()
      ensures dev.View() == old(dev.View())[SUPER_BLOCK_BNO := dev.View()[SUPER_BLOCK_BNO]]
      ensures SuperSettled(dev.View(), dev.disk.store, tables.super)
    {
      hide LRUCache.Valid, Blocks.View, SuperSettled;
      ghost var data := FillSuperBlock();
      var ok := dev.WriteBlock(SUPER_BLOCK_BNO);
      SuperWritten(dev.View(), dev.disk.store, data, tables.super);
    }

    method SyncImap()
      requires Mounted()
      modifies dev.Footprint()
      ensures Mounted() && fresh(dev.Footprint() - old(dev.Footprint()))
      ensures HoldsAll(dev.View(), IMAP_START, 1, tables.ImapRecords()) && ImapLaidOut(tables, dev.View())
      ensures Wrote(old(dev.View()), old(dev.disk.store), dev.View(), dev.disk.store,
                    IMAP_START, Span(tables.NumInodes() / 8, 1))
    {
      hide LRUCache.Valid, Blocks.View, HoldsAll, ImapLaidOut, ZmapLaidOut, InodesLaidOut;
      WriteBlocks(dev, IMAP_START, tables.ImapRecords(), 1);
      ImapIsLaidOut(tables, dev.View());
    }

    method SyncZmap()
      requires Mounted()
      modifies dev.Footprint()
      ensures Mounted() && fresh(dev.Footprint() - old(dev.Footprint()))
      ensures HoldsAll(dev.View(), tables.ZmapStart(), 1, tables.ZmapRecords()) && ZmapLaidOut(tables, dev.View())
      ensures Wrote(old(dev.View()), old(dev.disk.store), dev.View(), dev.disk.store,
                    tables.ZmapStart(), Span(tables.NumZones() / 8, 1))
    {
      hide LRUCache.Valid, Blocks.View, HoldsAll, ImapLaidOut, ZmapLaidOut, InodesLaidOut;
      WriteBlocks(dev, tables.ZmapStart(), tables.ZmapRecords(), 1);
      ZmapIsLaidOut(tables, dev.View());
    }

    method SyncInodes()
      requires Mounted()
      modifies dev.Footprint()
      ensures Mounted() && fresh(dev.Footprint() - old(dev.Footprint()))
      ensures HoldsAll(dev.View(), tables.InodeStart(), INODE_SIZE, tables.InodeRecords())
      ensures InodesLaidOut(tables, dev.View())
      ensures Wrote(old(dev.View()), old(dev.disk.store), dev.View(), dev.disk.store,
                    tables.InodeStart(), Span(tables.NumInodes(), INODE_SIZE))
    {
      hide LRUCache.Valid, Blocks.View, HoldsAll, ImapLaidOut, ZmapLaidOut, InodesLaidOut;
      WriteBlocks(dev, tables.InodeStart(), tables.InodeRecords(), INODE_SIZE);
      InodesAreLaidOut(tables, dev.View());
    }

    /** The two bitmaps written, after the super block. */
    method SyncMaps()
      requires Mounted() && SuperSettled(dev.View(), dev.disk.store, tables.super)
      modifies dev.Footprint()
      ensures Mounted() && fresh(dev.Footprint() - old(dev.Footprint()))
      ensures SuperSettled(dev.View(), dev.disk.store, tables.super)
      ensures Settled(dev.View(), dev.disk.store, IMAP_START, 1, tables.ImapRecords())
      ensures Settled(dev.View(), dev.disk.store, tables.ZmapStart(), 1, tables.ZmapRecords())
      ensures FilesKept(tables, old(dev.View()), dev.View())
    {
      hide LRUCache.Valid, Blocks.View, Wrote, HoldsAll, Settled, SuperSettled, InTables, FilesKept;
      RunsInTables(tables);
      ghost var v0, d0 := dev.View(), dev.disk.store;
      SyncImap();
      ghost var v1, d1 := dev.View(), dev.disk.store;
      SuperKept(v0, d0, v1, d1, IMAP_START, Span(tables.NumInodes() / 8, 1), tables.super);
      WroteSettles(v0, d0, v1, d1, IMAP_START, 1, tables.ImapRecords());
      RunKeepsFiles(tables, v0, d0, v1, d1, IMAP_START, Span(tables.NumInodes() / 8, 1));
      SyncZmap();
      ghost var v2, d2 := dev.View(), dev.disk.store;
      SuperKept(v1, d1, v2, d2, tables.ZmapStart(), Span(tables.NumZones() / 8, 1), tables.super);
      SettledKept(v1, d1, v2, d2, tables.ZmapStart(), Span(tables.NumZones() / 8, 1), IMAP_START, 1,
                  tables.ImapRecords());
      WroteSettles(v1, d1, v2, d2, tables.ZmapStart(), 1, tables.ZmapRecords());
      RunKeepsFiles(tables, v1, d1, v2, d2, tables.ZmapStart(), Span(tables.NumZones() / 8, 1));
      FilesKeptTwice(tables, v0, v1, v2);
    }

    method SyncFront()
      requires Mounted()
      modifies dev.Footprint()
      ensures Mounted() && fresh(dev.Footprint() - old(dev.Footprint()))
      ensures SuperSettled(dev.View(), dev.disk.store, tables.super)
      ensures Settled(dev.View(), dev.disk.store, IMAP_START, 1, tables.ImapRecords())
      ensures Settled(dev.View(), dev.disk.store, tables.ZmapStart(), 1, tables.ZmapRecords())
      ensures FilesKept(tables, old(dev.View()), dev.View())
    {
      hide LRUCache.Valid, Blocks.View, Settled, SuperSettled, OnDisk, FilesKept;
      ghost var v0 := dev.View();
      SyncSuperBlock();
      ghost var v1 := dev.View();
      SuperKeepsFiles(tables, v0, v1[SUPER_BLOCK_BNO]);
      SyncMaps();
      FilesKeptTwice(tables, v0, v1, dev.View());
    }

    /** sync_all: every table is on disk, each in its own region, and no other block changed its meaning. */
    method SyncAll()
      requires Mounted()
      modifies dev.Footprint()
      ensures Mounted() && fresh(dev.Footprint() - old(dev.Footprint()))
      ensures tables.StoredIn(dev.View()) && tables.StoredIn(dev.disk.store)
      ensures LaidOut(tables, dev.View()) && LaidOut(tables, dev.disk.store)
      ensures FilesKept(tables, old(dev.View()), dev.View())
    {
      hide LRUCache.Valid, Blocks.View, Wrote, HoldsAll, Settled, SuperSettled, Tables.StoredIn, OnDisk, Tables.Fits,
        Tables.Valid, InTables, FilesKept, LaidOut;
      ghost var v0 := dev.View();
      SyncFront();
      ghost var v, d := dev.View(), dev.disk.store;
      SyncInodes();
      InodesLast(tables, v, d, dev.View(), dev.disk.store);
      InodesKeepFiles(tables, v0, v, d, dev.View(), dev.disk.store);
      StoredIsLaidOut(tables, dev.View());
      StoredIsLaidOut(tables, dev.disk.store);
    }

    /** The blocks that the super block on disk describes are there, and its counts fit the tables. */
    ghost predicate Loadable()
      reads this, dev, dev.cache, dev.cache.table, dev.cache.order, dev.cache.made, dev.disk
    {
      && dev.Valid() && tables.Valid() && SUPER_BLOCK_BNO in dev.View()
      && var t := tables.(super := dev.View()[SUPER_BLOCK_BNO][..SUPER_BLOCK_SIZE]);
      && t.Fits() && OnDisk(dev.View(), IMAP_START, t.ImapBlocks())
      && OnDisk(dev.View(), t.ZmapStart(), t.ZmapBlocks())
      && OnDisk(dev.View(), t.InodeStart(), Span(t.NumInodes(), INODE_SIZE))
    }

    /** The first step of init_fs. */
    method LoadSuperBlock()
      requires Loadable()
      modifies this, dev.Footprint()
      ensures Mounted() && fresh(dev.Footprint() - old(dev.Footprint())) && dev.View() == old(dev.View())
      ensures 1 in dev.View() && tables == old(tables).(super := dev.View()[1][..39])
    {
      hide LRUCache.Valid, Blocks.View, OnDisk;
      dev.ViewKeys();
      var block := dev.ReadBlock(SUPER_BLOCK_BNO);
      tables := tables.(super := block.value[..SUPER_BLOCK_SIZE]);
    }

    method LoadInodes()
      requires Mounted()
      modifies this, dev.Footprint()
      ensures Mounted() && fresh(dev.Footprint() - old(dev.Footprint())) && dev.View() == old(dev.View())
      ensures tables == old(tables).(inodes := tables.inodes)
      ensures HoldsAll(dev.View(), tables.InodeStart(), INODE_SIZE, tables.InodeRecords())
      ensures InodesLaidOut(tables, dev.View())
      ensures SameBut(old(tables).inodes, tables.inodes, 1, 1 + Field(tables, 0))
    {
      hide LRUCache.Valid, Blocks.View, OnDisk, HoldsAll, InodesLaidOut;
      var records := ReadBlocks(dev, tables.InodeStart(), tables.NumInodes(), INODE_SIZE);
      RecordSizes(dev.View(), tables.InodeStart(), INODE_SIZE, records);
      tables := tables.(inodes := Overlaid(tables.inodes, 1, records));
      InodesAreLaidOut(tables, dev.View());
    }

    method LoadImap()
      requires Mounted()
      modifies this, dev.Footprint()
      ensures Mounted() && fresh(dev.Footprint() - old(dev.Footprint())) && dev.View() == old(dev.View())
      ensures tables == old(tables).(inodeMap := tables.inodeMap)
      ensures HoldsAll(dev.View(), IMAP_START, 1, tables.ImapRecords()) && ImapLaidOut(tables, dev.View())
      ensures SameBut(old(tables).inodeMap, tables.inodeMap, 0, Field(tables, 0) / 8)
    {
      hide LRUCache.Valid, Blocks.View, OnDisk, HoldsAll, ImapLaidOut;
      OnDiskPart(dev.View(), IMAP_START, tables.ImapBlocks(), Span(tables.NumInodes() / 8, 1));
      var records := ReadBlocks(dev, IMAP_START, tables.NumInodes() / 8, 1);
      RecordSizes(dev.View(), IMAP_START, 1, records);
      tables := tables.(inodeMap := Overlaid(tables.inodeMap, 0, Joined(records)));
      ImapIsLaidOut(tables, dev.View());
    }

    method LoadZmap()
      requires Mounted()
      modifies this, dev.Footprint()
      ensures Mounted() && fresh(dev.Footprint() - old(dev.Footprint())) && dev.View() == old(dev.View())
      ensures tables == old(tables).(zoneMap := tables.zoneMap)
      ensures HoldsAll(dev.View(), tables.ZmapStart(), 1, tables.ZmapRecords()) && ZmapLaidOut(tables, dev.View())
      ensures SameBut(old(tables).zoneMap, tables.zoneMap, 0, Field(tables, 2) / 8)
    {
      hide LRUCache.Valid, Blocks.View, OnDisk, HoldsAll, ZmapLaidOut;
      OnDiskPart(dev.View(), tables.ZmapStart(), tables.ZmapBlocks(), Span(tables.NumZones() / 8, 1));
      var records := ReadBlocks(dev, tables.ZmapStart(), tables.NumZones() / 8, 1);
      RecordSizes(dev.View(), tables.ZmapStart(), 1, records);
      tables := tables.(zoneMap := Overlaid(tables.zoneMap, 0, Joined(records)));
      ZmapIsLaidOut(tables, dev.View());
    }

    method LoadMaps()
      requires Mounted()
      modifies this, dev.Footprint()
      ensures Mounted() && fresh(dev.Footprint() - old(dev.Footprint())) && dev.View() == old(dev.View())
      ensures tables == old(tables).(inodeMap := tables.inodeMap, zoneMap := tables.zoneMap)
      ensures HoldsAll(dev.View(), IMAP_START, 1, tables.ImapRecords())
      ensures HoldsAll(dev.View(), tables.ZmapStart(), 1, tables.ZmapRecords())
    {
      hide LRUCache.Valid, Blocks.View, OnDisk, HoldsAll;
      LoadImap();
      LoadZmap();
    }

    method LoadSuperAndInodes()
      requires Loadable()
      modifies this, dev.Footprint()
      ensures Mounted() && fresh(dev.Footprint() - old(dev.Footprint())) && dev.View() == old(dev.View())
      ensures tables.super == dev.View()[SUPER_BLOCK_BNO][..SUPER_BLOCK_SIZE]
      ensures HoldsAll(dev.View(), tables.InodeStart(), INODE_SIZE, tables.InodeRecords())
    {
      hide LRUCache.Valid, Blocks.View, OnDisk, HoldsAll;
      LoadSuperBlock();
      LoadInodes();
    }

    /** init_fs: the tables come from the disk, whatever they were before. */
    method InitFs()
      requires Loadable()
      modifies this, dev.Footprint()
      ensures Mounted() && fresh(dev.Footprint() - old(dev.Footprint())) && dev.View() == old(dev.View())
      ensures tables.StoredIn(dev.View()) && LaidOut(tables, dev.View())
    {
      hide LRUCache.Valid, Blocks.View, OnDisk, HoldsAll, Tables.StoredIn, LaidOut;
      LoadSuperAndInodes();
      ghost var t := tables;
      LoadMaps();
      LoadedInOrder(t, tables, dev.View());
      StoredIsLaidOut(tables, dev.View());
    }
  }

  /** The super block found on disk after a sync describes the same regions. */
  lemma StoredIsLoadable(t: Tables, stale: Tables, view: Image, image: Image)
    requires t.Valid() && t.Fits() && t.StoredIn(image) && stale.Valid() && view.Keys == image.Keys
    requires OnDisk(view, IMAP_START, t.ImapBlocks()) && OnDisk(view, t.ZmapStart(), t.ZmapBlocks())
    requires OnDisk(view, t.InodeStart(), Span(t.NumInodes(), INODE_SIZE))
    ensures var t' := stale.(super := image[SUPER_BLOCK_BNO][..SUPER_BLOCK_SIZE]);
      && t'.Fits() && OnDisk(image, IMAP_START, t'.ImapBlocks()) && OnDisk(image, t'.ZmapStart(), t'.ZmapBlocks())
      && OnDisk(image, t'.InodeStart(), Span(t'.NumInodes(), INODE_SIZE))
  {
    hide HoldsAll;
    var t' := stale.(super := image[SUPER_BLOCK_BNO][..SUPER_BLOCK_SIZE]);
    assert t'.super[..DISK_SUPER_BLOCK_SIZE] == image[SUPER_BLOCK_BNO][..DISK_SUPER_BLOCK_SIZE];
    SameCounts(t, t');
  }

  /** A machine with an empty cache of any size and any tables in memory loads what the disk holds. */
  method Boot(n: nat, image: Image, stale: Tables, ghost t: Tables, ghost view: Image) returns (fs: FileSystem)
    requires 1 <= n && stale.Valid() && t.Valid() && t.Fits() && t.StoredIn(image) && view.Keys == image.Keys
    requires OnDisk(view, IMAP_START, t.ImapBlocks()) && OnDisk(view, t.ZmapStart(), t.ZmapBlocks())
    requires OnDisk(view, t.InodeStart(), Span(t.NumInodes(), INODE_SIZE))
    ensures fs.Mounted() && fs.dev.View() == image && Recovered(t, fs.tables)
  {
    hide LRUCache.Valid, Blocks.View, OnDisk, Tables.StoredIn;
    StoredIsLoadable(t, stale, view, image);
    SuperOnDisk(t, image);
    var dev := new Blocks(n, image);
    fs := new FileSystem(dev, stale);
    fs.InitFs();
    LoadedAreStored(t, fs.tables, image);
  }

  lemma SuperOnDisk(t: Tables, image: Image)
    requires t.Valid() && t.Fits() && t.StoredIn(image)
    ensures SUPER_BLOCK_BNO in image
  {
  }

  /** Persistence: sync_all, then a reboot that keeps only the disk, recovers the tables. */
  method SyncThenReboot(fs: FileSystem, n: nat, stale: Tables) returns (fs': FileSystem)
    requires fs.Mounted() && 1 <= n && stale.Valid()
    modifies fs.dev.Footprint()
    ensures fs'.Mounted() && old(fs.tables.Valid() && fs.tables.Fits()) && Recovered(old(fs.tables), fs'.tables)
  {
    hide LRUCache.Valid, Blocks.View, OnDisk, Tables.StoredIn;
    ghost var t := fs.tables;
    fs.SyncAll();
    fs.dev.ViewKeys();
    fs' := Boot(n, fs.dev.disk.store, stale, t, fs.dev.View());
  }
}
