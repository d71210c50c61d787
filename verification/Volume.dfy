/// What the bytes of a disk mean: a superblock, a set of allocated blocks, a table of
/// inode records and the blocks of the data area. Each single-block write of the file
/// system changes exactly one of the four.

module Volume {
  import opened Bytes
  import opened Device
  import opened Superblock
  import opened Inodes

  datatype Store = Store(inodes: seq<Inode>, data: map<nat, Block>) {
    function SetInode(i: Inode): Store
      requires i.no < |inodes|
    {
      this.(inodes := inodes[i.no := i])
    }

    function SetData(b: nat, block: Block): Store {
      this.(data := data[b := block])
    }
  }

  datatype Vol = Vol(sb: SuperBlock, alloc: set<nat>, s: Store)

  ghost predicate Sized(d: seq<Block>, g: Geometry) {
    g.Ok() && |d| == g.maxBlocks
  }

  predicate BitmapBit(d: seq<Block>, k: nat)
    requires 1 + k / 8 / BLOCK_SIZE < |d|
  {
    Bit(d[1 + k / 8 / BLOCK_SIZE][k / 8 % BLOCK_SIZE], k % 8)
  }

  lemma BitmapFits(g: Geometry, k: nat)
    requires g.Ok() && k < g.maxBlocks
    ensures 1 + k / 8 / BLOCK_SIZE < g.TableStart()
  {
  }

  ghost function AllocSet(d: seq<Block>, g: Geometry): set<nat>
    requires Sized(d, g)
  {
    set k: nat | k < g.maxBlocks && 1 + k / 8 / BLOCK_SIZE < |d| && BitmapBit(d, k)
  }

  ghost function RecordAt(d: seq<Block>, g: Geometry, no: nat): (r: seq<byte>)
    requires Sized(d, g) && no < INODES_PER_BLOCK * g.tableBlocks
    ensures |r| == INODE_SIZE
  {
    var off := TableOffset(no);
    d[g.TableStart() + TableBlock(no)][off..off + INODE_SIZE]
  }

  ghost function InodeAt(d: seq<Block>, g: Geometry, no: nat): Inode
    requires Sized(d, g) && no < INODES_PER_BLOCK * g.tableBlocks
  {
    Inodes.Decode(no, RecordAt(d, g, no))
  }

  ghost function View(d: seq<Block>, g: Geometry): Vol
    requires Sized(d, g)
  {
    Vol(Superblock.Decode(d[0]),
        AllocSet(d, g),
        Store(seq(INODES_PER_BLOCK * g.tableBlocks,
                  no requires 0 <= no < INODES_PER_BLOCK * g.tableBlocks => InodeAt(d, g, no)),
              map b: nat | g.DataStart() <= b < g.maxBlocks :: d[b]))
  }

  /// The meaning of the blocks now on the disk.
  ghost function V(disk: Disk): Vol
    requires disk.Valid()
    reads disk
  {
    View(disk.blocks, disk.g)
  }

  lemma SameBitmap(d: seq<Block>, d': seq<Block>, g: Geometry)
    requires Sized(d, g) && Sized(d', g)
    requires forall b | 1 <= b < g.TableStart() :: d'[b] == d[b]
    ensures AllocSet(d', g) == AllocSet(d, g)
  {
    forall k: nat | k < g.maxBlocks
      ensures 1 + k / 8 / BLOCK_SIZE < |d| && BitmapBit(d', k) == BitmapBit(d, k)
    {
      BitmapFits(g, k);
    }
  }

  lemma SameTable(d: seq<Block>, d': seq<Block>, g: Geometry)
    requires Sized(d, g) && Sized(d', g)
    requires forall b | g.TableStart() <= b < g.DataStart() :: d'[b] == d[b]
    ensures View(d', g).s.inodes == View(d, g).s.inodes
  {
    var n, n' := View(d, g).s.inodes, View(d', g).s.inodes;
    forall no: nat | no < |n|
      ensures n'[no] == n[no]
    {
      SlotInTable(g, no);
    }
  }

  lemma ViewSetSuper(d: seq<Block>, g: Geometry, sb: SuperBlock)
    requires Sized(d, g)
    ensures View(d[0 := Superblock.Image(sb)], g) == View(d, g).(sb := sb)
  {
    var d' := d[0 := Superblock.Image(sb)];
    Superblock.DecodeEncode(sb, Zeros(BLOCK_SIZE - SUPER_SIZE));
    SameBitmap(d, d', g);
    SameTable(d, d', g);
  }

  /// Changing one bit of one bitmap byte adds or removes one block number.
  lemma ViewSetBit(d: seq<Block>, g: Geometry, k: nat, x: byte, on: bool)
    requires Sized(d, g) && k < g.maxBlocks
    requires 1 + k / 8 / BLOCK_SIZE < g.TableStart()
    requires forall j: nat | j < 8 ::
      Bit(x, j) == if j == k % 8 then on else Bit(d[1 + k / 8 / BLOCK_SIZE][k / 8 % BLOCK_SIZE], j)
    ensures var m := 1 + k / 8 / BLOCK_SIZE;
      var v := View(d, g);
      View(d[m := d[m][k / 8 % BLOCK_SIZE := x]], g)
      == v.(alloc := if on then v.alloc + {k} else v.alloc - {k})
  {
    var m := 1 + k / 8 / BLOCK_SIZE;
    var d' := d[m := d[m][k / 8 % BLOCK_SIZE := x]];
    forall j: nat | j < g.maxBlocks
      ensures 1 + j / 8 / BLOCK_SIZE < |d|
      ensures BitmapBit(d', j) == if j == k then on else BitmapBit(d, j)
    {
      BitmapFits(g, j);
      BitAfter(d, k, x, on, j);
    }
    SameTable(d, d', g);
    var A := AllocSet(d, g);
    assert AllocSet(d', g) == if on then A + {k} else A - {k};
  }

  lemma BitAfter(d: seq<Block>, k: nat, x: byte, on: bool, j: nat)
    requires 1 + k / 8 / BLOCK_SIZE < |d| && 1 + j / 8 / BLOCK_SIZE < |d|
    requires forall j: nat | j < 8 ::
      Bit(x, j) == if j == k % 8 then on else Bit(d[1 + k / 8 / BLOCK_SIZE][k / 8 % BLOCK_SIZE], j)
    ensures var m := 1 + k / 8 / BLOCK_SIZE;
      BitmapBit(d[m := d[m][k / 8 % BLOCK_SIZE := x]], j) == if j == k then on else BitmapBit(d, j)
  {
    if j / 8 == k / 8 {
      assert j == k <==> j % 8 == k % 8;
    } else {
      assert j / 8 / BLOCK_SIZE != k / 8 / BLOCK_SIZE || j / 8 % BLOCK_SIZE != k / 8 % BLOCK_SIZE;
    }
  }

  /// Splicing a record into its slot replaces that record and no other one.
  lemma ViewSetInode(d: seq<Block>, g: Geometry, i: Inode, data: seq<byte>)
    requires Sized(d, g) && i.no < INODES_PER_BLOCK * g.tableBlocks
    requires g.TableStart() + TableBlock(i.no) < |d|
    requires |data| == INODE_SIZE && TableOffset(i.no) + INODE_SIZE <= BLOCK_SIZE
    requires Inodes.Decode(i.no, data) == i
    ensures var m := g.TableStart() + TableBlock(i.no);
      View(d[m := Splice(d[m], TableOffset(i.no), data)], g)
      == View(d, g).(s := View(d, g).s.SetInode(i))
  {
    hide Inodes.Decode, Superblock.Decode;
    var m := g.TableStart() + TableBlock(i.no);
    var d' := d[m := Splice(d[m], TableOffset(i.no), data)];
    SlotInTable(g, i.no);
    assert d'[0] == d[0];
    SameBitmap(d, d', g);
    var n, n' := View(d, g).s.inodes, View(d', g).s.inodes;
    forall no: nat | no < |n|
      ensures n'[no] == if no == i.no then i else n[no]
    {
      SlotAfter(d, g, i.no, data, no);
    }
    assert n' == n[i.no := i];
    assert View(d', g).s.data == View(d, g).s.data;
  }

  lemma SlotAfter(d: seq<Block>, g: Geometry, at: nat, data: seq<byte>, no: nat)
    requires Sized(d, g) && no < INODES_PER_BLOCK * g.tableBlocks && at < INODES_PER_BLOCK * g.tableBlocks
    requires g.TableStart() + TableBlock(at) < |d|
    requires |data| == INODE_SIZE && TableOffset(at) + INODE_SIZE <= BLOCK_SIZE
    ensures var m := g.TableStart() + TableBlock(at);
      RecordAt(d[m := Splice(d[m], TableOffset(at), data)], g, no)
      == if no == at then data else RecordAt(d, g, no)
  {
    var m := g.TableStart() + TableBlock(at);
    if no == at {
      SpliceReadsBack(d[m], TableOffset(at), data);
    } else if TableBlock(no) == TableBlock(at) {
      SlotsDisjoint(no, at);
      SpliceKeeps(d[m], TableOffset(at), data, TableOffset(no), TableOffset(no) + INODE_SIZE);
    }
  }

  lemma ViewSetData(d: seq<Block>, g: Geometry, b: nat, block: Block)
    requires Sized(d, g) && g.DataStart() <= b < g.maxBlocks
    ensures View(d[b := block], g) == View(d, g).(s := View(d, g).s.SetData(b, block))
  {
    var d' := d[b := block];
    SameBitmap(d, d', g);
    SameTable(d, d', g);
    assert View(d', g).s.data == View(d, g).s.data[b := block];
  }

  /// What write_inode makes of the block that has the slot.
  ghost function RecordWritten(d: seq<Block>, g: Geometry, i: Inode): (d': seq<Block>)
    requires g.TableStart() + TableBlock(i.no) < |d|
    ensures |d'| == |d|
  {
    var m := g.TableStart() + TableBlock(i.no);
    OffsetFits(i.no);
    d[m := Splice(d[m], TableOffset(i.no), Inodes.Encode(i))]
  }

  lemma OffsetFits(no: nat)
    ensures TableOffset(no) + INODE_SIZE <= BLOCK_SIZE
  {
  }

  /// With the shipped table size the inode table is no map beside the data area: on every
  /// disk, writing the record of any number that mkdir or create hands out puts it into a
  /// data block, and changes that block unless the same 84 bytes were there.
  lemma ShippedInodeHitsData(d: seq<Block>, i: Inode)
    requires Sized(d, SHIPPED) && Handed(i.no)
    ensures var m := SHIPPED.TableStart() + TableBlock(i.no);
      var off := TableOffset(i.no);
      && m < |d| && off + INODE_SIZE <= BLOCK_SIZE && m in View(d, SHIPPED).s.data
      && var v, v' := View(d, SHIPPED), View(RecordWritten(d, SHIPPED, i), SHIPPED);
      && m in v'.s.data && v' == v.(s := v.s.SetData(m, v'.s.data[m]))
      && v'.s.data[m][off..off + INODE_SIZE] == Inodes.Encode(i)
      && (v'.s.data[m] != v.s.data[m] <==> v.s.data[m][off..off + INODE_SIZE] != Inodes.Encode(i))
  {
    hide AllocSet, Superblock.Decode, Inodes.Decode, Inodes.Encode;
    ShippedSlotsAreDataBlocks(i.no);
    OffsetFits(i.no);
    var m, off, data := SHIPPED.TableStart() + TableBlock(i.no), TableOffset(i.no), Inodes.Encode(i);
    SpliceReadsBack(d[m], off, data);
    SpliceSame(d[m], off, data);
    ViewSetData(d, SHIPPED, m, Splice(d[m], off, data));
  }
}
