/**
 * Directories and path resolution: traverse_dir with find_entry's comparison, and namei, of
 * src/lib/fs.cc.
 */
module Directory {
  import opened Common
  import opened Ring
  import opened LruCache
  import opened BlockLayer
  import opened BlockRuns
  import opened Persistence
  import opened CStrings
  import opened Names
  import opened Paths
  import opened Zones

  const ROOT_INO := 1
  const ENTRY_SIZE := 32
  const ENTRIES_PER_BLOCK := 32

  function NumEntries(dir: Inode): nat {
    dir.size / ENTRY_SIZE
  }

  ghost function EntryBlock(view: Image, dir: Inode, i: nat): Block
    requires dir.Valid() && i / ENTRIES_PER_BLOCK < MAX_ZONES
  {
    BlockAt(view, ZoneBlock(view, dir, i / ENTRIES_PER_BLOCK))
  }

  function EntryOffset(i: nat): (off: nat)
    ensures off + ENTRY_SIZE <= BLOCK_SIZE
  {
    i % ENTRIES_PER_BLOCK * ENTRY_SIZE
  }

  /** Byte p of a file: of the zones in the order of the flat list, one after the other. */
  ghost function FileByte(view: Image, inode: Inode, p: nat): Byte
    requires inode.Valid() && p / BLOCK_SIZE < MAX_ZONES
  {
    BlockAt(view, AllZones(view, inode)[p / BLOCK_SIZE])[p % BLOCK_SIZE]
  }

  /** What follows the start of entry i in its block follows byte 32 * i in the content. */
  lemma EntryInContent(view: Image, dir: Inode, i: nat, j: nat)
    requires dir.Valid() && i / ENTRIES_PER_BLOCK < MAX_ZONES && EntryOffset(i) + j < BLOCK_SIZE
    ensures (32 * i + j) / BLOCK_SIZE < MAX_ZONES
    ensures EntryBlock(view, dir, i)[EntryOffset(i) + j] == FileByte(view, dir, 32 * i + j)
  {
    var p := 32 * i + j;
    assert p == BLOCK_SIZE * (i / ENTRIES_PER_BLOCK) + (EntryOffset(i) + j);
    assert p / BLOCK_SIZE == i / ENTRIES_PER_BLOCK && p % BLOCK_SIZE == EntryOffset(i) + j;
    ZoneBlockIndexesAllZones(view, dir, i / ENTRIES_PER_BLOCK);
  }

  /** Entry i of a directory starts at byte 32 * i of its content. */
  lemma EntryIsFileContent(view: Image, dir: Inode, i: nat, j: nat)
    requires dir.Valid() && i / ENTRIES_PER_BLOCK < MAX_ZONES && j < ENTRY_SIZE
    ensures (32 * i + j) / BLOCK_SIZE < MAX_ZONES
    ensures EntryBlock(view, dir, i)[EntryOffset(i) + j] == FileByte(view, dir, 32 * i + j)
  {
    EntryInContent(view, dir, i, j);
  }

  /** From byte p on the content spells this name and then NUL. */
  ghost predicate Spells(view: Image, dir: Inode, p: nat, name: seq<Byte>) {
    && dir.Valid() && (p + |name|) / BLOCK_SIZE < MAX_ZONES && FileByte(view, dir, p + |name|) == 0
    && forall j :: 0 <= j < |name| ==> name[j] != 0 && FileByte(view, dir, p + j) == name[j]
  }

  /** The memory from the name of entry i to the end of its block; strcmp reads it as a C string. */
  ghost function NameMemory(view: Image, dir: Inode, i: nat): seq<Byte>
    requires dir.Valid() && i / ENTRIES_PER_BLOCK < MAX_ZONES
  {
    EntryBlock(view, dir, i)[EntryOffset(i) + 2..]
  }

  ghost predicate EntryOk(view: Image, dir: Inode, i: nat)
    requires dir.Valid()
  {
    && i / ENTRIES_PER_BLOCK < MAX_ZONES && ZoneExists(view, dir, i / ENTRIES_PER_BLOCK)
    && 0 in NameMemory(view, dir, i)
  }

  /** The zones of a directory exist, and each entry's name ends within its block. */
  ghost predicate DirOk(view: Image, dir: Inode) {
    && dir.Valid()
    && (dir.IsDirectory() ==>
          ZoneExists(view, dir, 0) && forall i :: 0 <= i < NumEntries(dir) ==> EntryOk(view, dir, i))
  }

  /** The names of a directory's entries, in order; a file that is no directory has none. */
  ghost function DirNames(view: Image, dir: Inode): (r: seq<seq<Byte>>)
    requires DirOk(view, dir)
    ensures dir.IsDirectory() ==> |r| == NumEntries(dir)
    ensures dir.IsDirectory() ==>
      forall i :: 0 <= i < |r| ==> EntryOk(view, dir, i) && r[i] == CString(NameMemory(view, dir, i))
  {
    var n := if dir.IsDirectory() then NumEntries(dir) else 0;
    seq(n, i requires 0 <= i < n && EntryOk(view, dir, i) => CString(NameMemory(view, dir, i)))
  }

  /** A directory has one entry for every 32 bytes of its size. */
  lemma EntryCount(view: Image, dir: Inode)
    requires DirOk(view, dir) && dir.IsDirectory()
    ensures 32 * |DirNames(view, dir)| <= dir.size < 32 * |DirNames(view, dir)| + 32
  {
  }

  /** The name of entry i is what the content spells from byte 32 * i + 2 on. */
  lemma EntrySpells(view: Image, dir: Inode, i: nat)
    requires DirOk(view, dir) && i < |DirNames(view, dir)|
    ensures Spells(view, dir, 32 * i + 2, DirNames(view, dir)[i])
  {
    hide FileByte, EntryBlock, AllZones, ZoneExists;
    assert EntryOk(view, dir, i);
    var memory := NameMemory(view, dir, i);
    var n := TerminatorOf(memory);
    forall j | 0 <= j <= n
      ensures (32 * i + 2 + j) / BLOCK_SIZE < MAX_ZONES && FileByte(view, dir, 32 * i + 2 + j) == memory[j]
    {
      EntryInContent(view, dir, i, 2 + j);
    }
  }

  lemma SpellsOne(view: Image, dir: Inode, p: nat, a: seq<Byte>, b: seq<Byte>)
    requires Spells(view, dir, p, a) && Spells(view, dir, p, b)
    ensures a == b
  {
    hide FileByte, Spells;
    if |a| < |b| {
      Letter(view, dir, p, b, |a|);
      End(view, dir, p, a);
    } else if |b| < |a| {
      Letter(view, dir, p, a, |b|);
      End(view, dir, p, b);
    } else {
      forall j | 0 <= j < |a| ensures a[j] == b[j] {
        Letter(view, dir, p, a, j);
        Letter(view, dir, p, b, j);
      }
    }
  }

  lemma Letter(view: Image, dir: Inode, p: nat, name: seq<Byte>, j: nat)
    requires Spells(view, dir, p, name) && j < |name|
    ensures dir.Valid() && (p + j) / BLOCK_SIZE < MAX_ZONES && FileByte(view, dir, p + j) == name[j] != 0
  {
  }

  lemma End(view: Image, dir: Inode, p: nat, name: seq<Byte>)
    requires Spells(view, dir, p, name)
    ensures dir.Valid() && (p + |name|) / BLOCK_SIZE < MAX_ZONES && FileByte(view, dir, p + |name|) == 0
  {
  }

  /** The inode number that entry i records. */
  ghost function EntryInode(view: Image, dir: Inode, i: nat): nat
    requires DirOk(view, dir) && i < |DirNames(view, dir)|
  {
    if i / ENTRIES_PER_BLOCK < MAX_ZONES then Half(EntryBlock(view, dir, i), EntryOffset(i)) else 0
  }

  /** The directory as a list of entries. */
  ghost function Listing(view: Image, dir: Inode): (r: Dir)
    requires DirOk(view, dir)
    ensures r.Valid() && r.names == DirNames(view, dir)
  {
    var n := |DirNames(view, dir)|;
    Dir(DirNames(view, dir), seq(n, i requires 0 <= i < n => EntryInode(view, dir, i)))
  }

  lemma ListingGoto(view: Image, dir: Inode, i: nat)
    requires DirOk(view, dir) && i < |DirNames(view, dir)|
    ensures Listing(view, dir).Goto(Some(i)) == Some(EntryInode(view, dir, i))
  {
  }

  /** The name of entry i, as the content spells it. */
  ghost predicate Named(view: Image, dir: Inode, i: nat, name: seq<Byte>) {
    Spells(view, dir, 32 * i + 2, name)
  }

  /** Entry i of the content matches: the name it spells is a prefix of rest. */
  ghost predicate Matches(view: Image, dir: Inode, rest: seq<Byte>, i: nat) {
    32 * i + 32 <= dir.size && exists name :: Named(view, dir, i, name) && name <= rest
  }

  /**
   * A lookup in the content of a directory, in bytes: the number in the first two bytes of the first
   * entry that matches, or nothing exactly when none does.
   */
  ghost predicate LookedUp(view: Image, dir: Inode, rest: seq<Byte>, r: Option<nat>) {
    match r
    case None => forall i: nat :: !Matches(view, dir, rest, i)
    case Some(ino) => exists i: nat ::
      && Matches(view, dir, rest, i) && (forall j: nat :: j < i ==> !Matches(view, dir, rest, j))
      && dir.Valid() && (32 * i + 1) / BLOCK_SIZE < MAX_ZONES
      && ino == FileByte(view, dir, 32 * i) as int + 256 * FileByte(view, dir, 32 * i + 1) as int
  }

  /** The outcome of find_entry: nothing in a file whose type bits do not say directory. */
  ghost predicate Sought(view: Image, dir: Inode, rest: seq<Byte>, r: Option<nat>) {
    if 0x4000 <= dir.mode % 0x10000 < 0x5000 then LookedUp(view, dir, rest, r) else r == None
  }

  lemma MatchesIs(view: Image, dir: Inode, rest: seq<Byte>, i: nat)
    requires DirOk(view, dir) && dir.IsDirectory()
    ensures Matches(view, dir, rest, i) <==> i < |DirNames(view, dir)| && DirNames(view, dir)[i] <= rest
  {
    hide Spells, DirOk;
    EntryCount(view, dir);
    if i < |DirNames(view, dir)| {
      EntrySpells(view, dir, i);
      assert Named(view, dir, i, DirNames(view, dir)[i]);
      forall name | Named(view, dir, i, name) ensures name == DirNames(view, dir)[i] {
        SpellsOne(view, dir, 32 * i + 2, name, DirNames(view, dir)[i]);
      }
    }
  }

  /** What the list of names gives is what the content gives. */
  lemma LookupInBytes(view: Image, dir: Inode, rest: seq<Byte>)
    requires DirOk(view, dir) && dir.IsDirectory()
    ensures LookedUp(view, dir, rest, Listing(view, dir).Goto(FirstPrefix(DirNames(view, dir), rest)))
  {
    hide Matches, DirNames, EntryInode, FileByte, FirstPrefix, Spells;
    var names := DirNames(view, dir);
    FirstPrefixFound(names, rest);
    forall i: nat ensures Matches(view, dir, rest, i) <==> i < |names| && names[i] <= rest {
      MatchesIs(view, dir, rest, i);
    }
    var hit := FirstPrefix(names, rest);
    if hit.Some? {
      ListingGoto(view, dir, hit.value);
      NumberInBytes(view, dir, hit.value);
    }
  }

  lemma NumberInBytes(view: Image, dir: Inode, i: nat)
    requires DirOk(view, dir) && i < |DirNames(view, dir)|
    ensures dir.Valid() && (32 * i + 1) / BLOCK_SIZE < MAX_ZONES
    ensures EntryInode(view, dir, i) ==
              FileByte(view, dir, 32 * i) as int + 256 * FileByte(view, dir, 32 * i + 1) as int
  {
    hide FileByte, EntryBlock, AllZones, ZoneExists;
    assert EntryOk(view, dir, i);
    EntryIsFileContent(view, dir, i, 0);
    EntryIsFileContent(view, dir, i, 1);
  }

  ghost predicate InodesOk(view: Image, inodes: seq<Inode>) {
    forall i {:trigger inodes[i]} :: 0 <= i < |inodes| ==> DirOk(view, inodes[i])
  }

  /** All directories, by inode number. */
  ghost function Directories(view: Image, inodes: seq<Inode>): (fs: FS)
    requires InodesOk(view, inodes)
    ensures |fs| == |inodes| && forall i :: 0 <= i < |fs| ==> fs[i] == Listing(view, inodes[i])
  {
    seq(|inodes|, i requires 0 <= i < |inodes| && DirOk(view, inodes[i]) => Listing(view, inodes[i]))
  }

  /** None of the first n names is a prefix of rest. */
  ghost predicate NoneBefore(names: seq<seq<Byte>>, rest: seq<Byte>, n: nat) {
    n <= |names| && forall j :: 0 <= j < n ==> !(names[j] <= rest)
  }

  lemma NoneBeforeZero(names: seq<seq<Byte>>, rest: seq<Byte>)
    ensures NoneBefore(names, rest, 0)
  {
  }

  lemma {:induction false} FirstPrefixAt(names: seq<seq<Byte>>, rest: seq<Byte>, i: nat)
    requires i < |names| && names[i] <= rest && NoneBefore(names, rest, i)
    ensures FirstPrefix(names, rest) == Some(i)
  {
    if i > 0 {
      assert !(names[0] <= rest);
      FirstPrefixAt(names[1..], rest, i - 1);
    }
  }

  lemma {:induction false} FirstPrefixNone(names: seq<seq<Byte>>, rest: seq<Byte>)
    requires NoneBefore(names, rest, |names|)
    ensures FirstPrefix(names, rest) == None
  {
    if names != [] {
      FirstPrefixNone(names[1..], rest);
    }
  }

  /** When the loop is to start a new zone, that zone exists. */
  lemma NextZone(view: Image, dir: Inode, i: nat, zoneCnt: nat)
    requires DirOk(view, dir) && dir.IsDirectory() && i < NumEntries(dir)
    requires ENTRY_SIZE * i == BLOCK_SIZE * zoneCnt + BLOCK_SIZE
    ensures zoneCnt + 1 < MAX_ZONES && ZoneExists(view, dir, zoneCnt + 1)
  {
    assert EntryOk(view, dir, i);
  }

  /** The entry that the loop looks at is entry i. */
  lemma EntryHere(view: Image, dir: Inode, i: nat, zoneCnt: nat, off: nat, block: Block)
    requires DirOk(view, dir) && dir.IsDirectory() && i < NumEntries(dir)
    requires ENTRY_SIZE * i == BLOCK_SIZE * zoneCnt + off && off < BLOCK_SIZE && zoneCnt < MAX_ZONES
    requires block == BlockAt(view, ZoneBlock(view, dir, zoneCnt))
    ensures off + ENTRY_SIZE <= BLOCK_SIZE && i < |DirNames(view, dir)| && 0 in block[off + 2..]
    ensures DirNames(view, dir)[i] == CString(block[off + 2..])
    ensures EntryInode(view, dir, i) == Half(block, off)
  {
    assert EntryOk(view, dir, i);
    assert zoneCnt == i / ENTRIES_PER_BLOCK && off == EntryOffset(i);
    assert block[off + 2..] == NameMemory(view, dir, i);
  }

  lemma NoNames(view: Image, dir: Inode)
    requires DirOk(view, dir)
    ensures dir.Valid()
    ensures if dir.IsDirectory() then ZoneExists(view, dir, 0) && |DirNames(view, dir)| == NumEntries(dir)
            else DirNames(view, dir) == []
    ensures Listing(view, dir).Goto(None) == None
  {
  }

  /**
   * find_entry: the target of the first entry whose name strcmp takes for the path. The name is
   * the rest of the path, up to its NUL.
   */
  method FindEntry(dev: Blocks, dir: Inode, name: seq<Byte>) returns (r: Option<nat>)
    requires dev.Valid() && DirOk(dev.View(), dir) && 0 in name
    modifies dev.Footprint()
    ensures dev.Valid() && fresh(dev.Footprint() - old(dev.Footprint())) && dev.View() == old(dev.View())
    ensures r == Listing(dev.View(), dir).Goto(FirstPrefix(DirNames(dev.View(), dir), CString(name)))
    ensures Sought(dev.View(), dir, CString(name), r)
  {
    hide LRUCache.Valid, Blocks.View, ZoneExists, CString, DirNames, EntryInode, Listing, LookedUp, Inode.IsDirectory;
    DirectoryBits(dir);
    NoNames(dev.View(), dir);
    if !dir.IsDirectory() {
      return None;
    }
    r := SearchEntries(dev, dir, name);
    LookupInBytes(dev.View(), dir, CString(name));
  }

  /** The traversal is at byte off of zone zoneCnt, which is entry i's position, with that zone's buffer. */
  ghost predicate AtEntry(view: Image, dir: Inode, i: nat, zoneCnt: nat, off: nat, block: Block) {
    && dir.Valid() && zoneCnt < MAX_ZONES
    && off <= BLOCK_SIZE && ENTRY_SIZE * i == BLOCK_SIZE * zoneCnt + off
    && block == BlockAt(view, ZoneBlock(view, dir, zoneCnt))
  }

  lemma AtFirst(view: Image, dir: Inode, block: Block)
    requires dir.Valid() && block == BlockAt(view, ZoneBlock(view, dir, 0))
    ensures AtEntry(view, dir, 0, 0, 0, block)
  {
  }

  /** Entry i from the buffer of the zone it lies in, which is read in when entry i is its first. */
  method NextEntry(dev: Blocks, dir: Inode, i: nat, zoneCnt: nat, off: nat, zone: ListNode<Block>)
    returns (zoneCnt': nat, off': nat, zone': ListNode<Block>)
    requires dev.Valid() && DirOk(dev.View(), dir) && dir.IsDirectory() && i < NumEntries(dir)
    requires AtEntry(dev.View(), dir, i, zoneCnt, off, zone.value)
    modifies dev.Footprint()
    ensures dev.Valid() && fresh(dev.Footprint() - old(dev.Footprint())) && dev.View() == old(dev.View())
    ensures AtEntry(dev.View(), dir, i, zoneCnt', off', zone'.value)
    ensures off' + ENTRY_SIZE <= BLOCK_SIZE && i < |DirNames(dev.View(), dir)| && 0 in zone'.value[off' + 2..]
    ensures DirNames(dev.View(), dir)[i] == CString(zone'.value[off' + 2..])
    ensures EntryInode(dev.View(), dir, i) == Half(zone'.value, off')
  {
    hide LRUCache.Valid, Blocks.View, ZoneExists, CString, DirNames, EntryInode, ZoneBlock, BlockAt, DirOk, Half;
    zoneCnt', off', zone' := zoneCnt, off, zone;
    if off' >= BLOCK_SIZE {
      NextZone(dev.View(), dir, i, zoneCnt');
      zoneCnt', off' := zoneCnt' + 1, 0;
      zone' := ReadZone(dev, dir, zoneCnt');
    }
    EntryHere(dev.View(), dir, i, zoneCnt', off', zone'.value);
  }

  lemma Advanced(view: Image, dir: Inode, i: nat, zoneCnt: nat, off: nat, block: Block)
    requires AtEntry(view, dir, i, zoneCnt, off, block) && off + ENTRY_SIZE <= BLOCK_SIZE
    ensures AtEntry(view, dir, i + 1, zoneCnt, off + ENTRY_SIZE, block)
  {
  }

  /** One round of traverse_dir with find_entry's callback: does entry i match? */
  method TryEntry(dev: Blocks, dir: Inode, i: nat, zoneCnt: nat, off: nat, zone: ListNode<Block>, name: seq<Byte>)
    returns (zoneCnt': nat, off': nat, zone': ListNode<Block>, found: bool)
    requires dev.Valid() && DirOk(dev.View(), dir) && dir.IsDirectory() && i < NumEntries(dir) && 0 in name
    requires AtEntry(dev.View(), dir, i, zoneCnt, off, zone.value)
    modifies dev.Footprint()
    ensures dev.Valid() && fresh(dev.Footprint() - old(dev.Footprint())) && dev.View() == old(dev.View())
    ensures AtEntry(dev.View(), dir, i + 1, zoneCnt', off' + ENTRY_SIZE, zone'.value)
    ensures i < |DirNames(dev.View(), dir)| && off' + ENTRY_SIZE <= BLOCK_SIZE
    ensures found <==> DirNames(dev.View(), dir)[i] <= CString(name)
    ensures EntryInode(dev.View(), dir, i) == Half(zone'.value, off')
  {
    hide LRUCache.Valid, Blocks.View, Blocks.Valid, ZoneExists, CString, DirNames, EntryInode, ZoneBlock, BlockAt,
      DirOk, AtEntry, Half;
    zoneCnt', off', zone' := NextEntry(dev, dir, i, zoneCnt, off, zone);
    Advanced(dev.View(), dir, i, zoneCnt', off', zone'.value);
    var c := Strcmp(zone'.value[off' + 2..], name);
    found := c == 0;
  }

  lemma SearchStep(names: seq<seq<Byte>>, rest: seq<Byte>, i: nat, found: bool)
    requires NoneBefore(names, rest, i) && i < |names| && (found <==> names[i] <= rest)
    ensures found ==> FirstPrefix(names, rest) == Some(i)
    ensures !found ==> NoneBefore(names, rest, i + 1)
  {
    if found {
      FirstPrefixAt(names, rest, i);
    }
  }

  /** The loop of traverse_dir with find_entry's callback. */
  method SearchEntries(dev: Blocks, dir: Inode, name: seq<Byte>) returns (r: Option<nat>)
    requires dev.Valid() && DirOk(dev.View(), dir) && 0 in name && dir.IsDirectory()
    modifies dev.Footprint()
    ensures dev.Valid() && fresh(dev.Footprint() - old(dev.Footprint())) && dev.View() == old(dev.View())
    ensures r == Listing(dev.View(), dir).Goto(FirstPrefix(DirNames(dev.View(), dir), CString(name)))
  {
    hide LRUCache.Valid, Blocks.View, Blocks.Valid, ZoneExists, CString, DirNames, EntryInode, ZoneBlock, BlockAt,
      NoneBefore, DirOk, AtEntry, Half, Listing;
    ghost var view, names, rest := dev.View(), DirNames(dev.View(), dir), CString(name);
    NoNames(view, dir);
    NoneBeforeZero(names, rest);
    var zoneCnt: nat, off: nat, i: nat, found := 0, 0, 0, false;
    var zone := ReadZone(dev, dir, 0);
    AtFirst(view, dir, zone.value);
    while i < NumEntries(dir)
      invariant dev.Valid() && fresh(dev.Footprint() - old(dev.Footprint())) && dev.View() == view
      invariant AtEntry(view, dir, i, zoneCnt, off, zone.value)
      invariant i <= NumEntries(dir) && NoneBefore(names, rest, i)
    {
      zoneCnt, off, zone, found := TryEntry(dev, dir, i, zoneCnt, off, zone, name);
      SearchStep(names, rest, i, found);
      if found {
        ListingGoto(view, dir, i);
        return Some(Half(zone.value, off));
      }
      i, off := i + 1, off + ENTRY_SIZE;
    }
    FirstPrefixNone(names, rest);
    return None;
  }

  /**
   * namei: walks the path component by component. A null inode, or one beyond the table, would
   * be read as a directory; that is a fault here.
   */
  method Namei(dev: Blocks, inodes: seq<Inode>, path: seq<Byte>) returns (r: End)
    requires dev.Valid() && InodesOk(dev.View(), inodes)
    requires |path| > 0 && path[0] == SLASH && 0 in path[1..]
    modifies dev.Footprint()
    ensures dev.Valid() && fresh(dev.Footprint() - old(dev.Footprint())) && dev.View() == old(dev.View())
    ensures r == Walk(Directories(dev.View(), inodes), 1, CString(path[1..])).end
    ensures Clear(Directories(dev.View(), inodes), 1, CString(path[1..])) ==>
              r == Resolve(Directories(dev.View(), inodes), 1, Split(CString(path[1..]))).end
  {
    hide LRUCache.Valid, Blocks.View, Blocks.Valid, CString, DirOk, Listing, Walk, WalkFrom, FirstPrefix, Resolve,
      Clear, Split, Sought;
    ghost var view, fs := dev.View(), Directories(dev.View(), inodes);
    ghost var meant := Walk(fs, ROOT_INO, CString(path[1..])).end;
    WalkIsResolve(fs, ROOT_INO, CString(path[1..]));
    WalkFromSome(fs, ROOT_INO, CString(path[1..]));
    var inode: Option<nat> := Some(ROOT_INO);
    var p, delim := 1, 0;
    while true
      invariant dev.Valid() && fresh(dev.Footprint() - old(dev.Footprint())) && dev.View() == view
      invariant 0 <= delim < |path| && 0 in path[delim + 1..]
      invariant meant == WalkFrom(fs, inode, CString(path[delim + 1..]))
      decreases |path| - delim
    {
      p := delim + 1;
      delim := Strfind(path, p, SLASH);
      WalkFromFault(fs, inode, CString(path[p..]));
      if inode.None? || inode.value >= |inodes| {
        return Fault;
      }
      WalkFromSome(fs, inode.value, CString(path[p..]));
      WalkRound(fs, inode.value, path, p);
      inode := FindEntry(dev, inodes[inode.value], path[p..]);
      if path[delim] == 0 {
        break;
      }
    }
    return EndAt(inode);
  }
}
