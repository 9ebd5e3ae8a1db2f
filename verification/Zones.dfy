/**
 * Where the bytes of a file lie: read_zone of src/lib/fs.cc, with seven direct zones, one table
 * of 512 zone numbers and one table of such tables.
 */
module Zones {
  import opened Common
  import opened Ring
  import opened LruCache
  import opened BlockLayer
  import opened BlockRuns
  import opened Persistence

  const DIRECT := 7
  const TABLE := 512
  const MAX_ZONES := DIRECT + TABLE + TABLE * TABLE

  /** An entry of the inode table; zone holds its nine zone numbers. */
  datatype Inode = Inode(mode: nat, size: nat, zone: seq<nat>) {
    predicate Valid() {
      |zone| == 9
    }

    predicate IsDirectory() {
      mode / 0x1000 % 0x10 == 4
    }
  }

  /** Block b, or a blank one when there is no such block. */
  ghost function BlockAt(view: Image, b: nat): Block {
    if b in view then view[b] else BlankBlock()
  }

  /** Entry i of a block read as a table of 16-bit zone numbers. */
  function ZoneNumber(block: Block, i: nat): nat
    requires i < TABLE
  {
    Half(block, 2 * i)
  }

  /** The block that read_zone returns. */
  ghost function ZoneBlock(view: Image, inode: Inode, zone: nat): nat
    requires inode.Valid() && zone < MAX_ZONES
  {
    if zone < DIRECT then inode.zone[zone]
    else if zone < DIRECT + TABLE then ZoneNumber(BlockAt(view, inode.zone[7]), zone - DIRECT)
    else
      var z := zone - (DIRECT + TABLE);
      ZoneNumber(BlockAt(view, ZoneNumber(BlockAt(view, inode.zone[8]), z / TABLE)), z % TABLE)
  }

  /** Every block that read_zone touches on its way to this zone exists. */
  ghost predicate ZoneExists(view: Image, inode: Inode, zone: nat)
    requires inode.Valid() && zone < MAX_ZONES
  {
    && ZoneBlock(view, inode, zone) in view
    && (DIRECT <= zone < DIRECT + TABLE ==> inode.zone[7] in view)
    && (DIRECT + TABLE <= zone ==>
          inode.zone[8] in view && ZoneNumber(BlockAt(view, inode.zone[8]), (zone - (DIRECT + TABLE)) / TABLE) in view)
  }

  /** A block as the list of its 512 zone numbers. */
  ghost function Table(block: Block): (r: seq<nat>)
    ensures |r| == TABLE
  {
    seq(TABLE, i requires 0 <= i < TABLE => ZoneNumber(block, i))
  }

  /** The tables at these blocks, one after the other. */
  ghost function Tables2(view: Image, bnos: seq<nat>): (r: seq<nat>)
    ensures |r| == TABLE * |bnos|
  {
    if bnos == [] then [] else Table(BlockAt(view, bnos[0])) + Tables2(view, bnos[1..])
  }

  /** The flat list of all zones of a file. */
  ghost function AllZones(view: Image, inode: Inode): (r: seq<nat>)
    requires inode.Valid()
    ensures |r| == MAX_ZONES
  {
    inode.zone[..DIRECT] + Table(BlockAt(view, inode.zone[7])) + Tables2(view, Table(BlockAt(view, inode.zone[8])))
  }

  lemma {:induction false} Tables2At(view: Image, bnos: seq<nat>, i: nat)
    requires i < TABLE * |bnos|
    ensures Tables2(view, bnos)[i] == ZoneNumber(BlockAt(view, bnos[i / TABLE]), i % TABLE)
  {
    if i >= TABLE {
      Tables2At(view, bnos[1..], i - TABLE);
      assert (i - TABLE) / TABLE == i / TABLE - 1 && (i - TABLE) % TABLE == i % TABLE;
    }
  }

  /** The zone map: read_zone indexes the flat list, through whatever tables that takes. */
  lemma ZoneBlockIndexesAllZones(view: Image, inode: Inode, zone: nat)
    requires inode.Valid() && zone < MAX_ZONES
    ensures ZoneBlock(view, inode, zone) == AllZones(view, inode)[zone]
  {
    if zone >= DIRECT + TABLE {
      Tables2At(view, Table(BlockAt(view, inode.zone[8])), zone - (DIRECT + TABLE));
    }
  }

  /** The 16-bit number at this offset of a block. */
  ghost function NumberAt(view: Image, b: nat, at: nat): (n: int)
    requires b in view && at + 2 <= 0x400
    ensures n == view[b][at] as int + 256 * view[b][at + 1] as int
  {
    Half(view[b], at)
  }

  /**
   * The flat zone list in bytes: seven numbers of the inode itself, then the 512 numbers of the block at
   * its eighth, then for each of the 512 numbers of the block at its ninth the 512 numbers of the block there.
   */
  lemma ZonesInBytes(view: Image, inode: Inode, i: nat)
    requires inode.Valid() && i < 7 + 512 + 512 * 512
    ensures |AllZones(view, inode)| == 7 + 512 + 512 * 512
    ensures i < 7 ==> AllZones(view, inode)[i] == inode.zone[i]
    ensures 7 <= i < 519 && inode.zone[7] in view ==>
              AllZones(view, inode)[i] == NumberAt(view, inode.zone[7], 2 * (i - 7))
    ensures i >= 519 && inode.zone[8] in view ==>
              var table := NumberAt(view, inode.zone[8], (i - 519) / 512 * 2);
              table in view ==> AllZones(view, inode)[i] == NumberAt(view, table, (i - 519) % 512 * 2)
  {
    hide AllZones, Half;
    ZoneBlockIndexesAllZones(view, inode, i);
  }

  /** The file type bits of a mode say directory: 040000 out of 0170000. */
  lemma DirectoryBits(inode: Inode)
    ensures inode.IsDirectory() <==> 0x4000 <= inode.mode % 0x10000 < 0x5000
  {
    var m := inode.mode;
    var q, r := m / 0x1000, m % 0x1000;
    var h, l := q / 0x10, q % 0x10;
    assert m == 0x10000 * h + (0x1000 * l + r);
  }

  /** Reads a table and then the block that entry i of it names. */
  method ReadVia(dev: Blocks, table: nat, i: nat) returns (buff: ListNode<Block>)
    requires dev.Valid() && i < TABLE && table in dev.View() && ZoneNumber(BlockAt(dev.View(), table), i) in dev.View()
    modifies dev.Footprint()
    ensures dev.Valid() && fresh(dev.Footprint() - old(dev.Footprint())) && dev.View() == old(dev.View())
    ensures buff.value == BlockAt(dev.View(), ZoneNumber(BlockAt(dev.View(), table), i))
  {
    hide LRUCache.Valid, Blocks.View;
    dev.ViewKeys();
    var zones := dev.ReadBlock(table);
    dev.ViewKeys();
    buff := dev.ReadBlock(ZoneNumber(zones.value, i));
  }

  /** read_zone: the buffer of the zone's block. */
  method ReadZone(dev: Blocks, inode: Inode, zone: nat) returns (buff: ListNode<Block>)
    requires dev.Valid() && inode.Valid() && zone < MAX_ZONES && ZoneExists(dev.View(), inode, zone)
    modifies dev.Footprint()
    ensures dev.Valid() && fresh(dev.Footprint() - old(dev.Footprint())) && dev.View() == old(dev.View())
    ensures buff.value == BlockAt(dev.View(), ZoneBlock(dev.View(), inode, zone))
  {
    hide LRUCache.Valid, Blocks.View;
    dev.ViewKeys();
    if zone < DIRECT {
      buff := dev.ReadBlock(inode.zone[zone]);
    } else if zone < DIRECT + TABLE {
      buff := ReadVia(dev, inode.zone[7], zone - DIRECT);
    } else {
      var z := zone - (DIRECT + TABLE);
      ghost var view := dev.View();
      var zoneTable := dev.ReadBlock(inode.zone[8]);
      var table := ZoneNumber(zoneTable.value, z / TABLE);
      assert ZoneBlock(view, inode, zone) == ZoneNumber(BlockAt(view, table), z % TABLE);
      buff := ReadVia(dev, table, z % TABLE);
    }
  }
}
