/// Reading and writing inode records and following block pointers (src/inode.rs).

module InodeTable {
  import opened Wrappers
  import opened Bytes
  import opened Device
  import opened Superblock
  import opened Inodes
  import opened Volume
  import opened Ownership

  predicate InTable(g: Geometry, no: nat) {
    no < INODES_PER_BLOCK * g.tableBlocks
  }

  method ReadInode(disk: Disk, sb: SuperBlock, no: u32) returns (i: Inode)
    requires disk.Valid() && Describes(sb, disk.g) && InTable(disk.g, no)
    ensures i == V(disk).s.inodes[no]
  {
    SlotInTable(disk.g, no);
    var block, off := sb.inodeTableStart + no / INODES_PER_BLOCK, no % INODES_PER_BLOCK * INODE_SIZE;
    var buf := new byte[BLOCK_SIZE](_ => 0);
    disk.ReadBlock(block, buf);
    assert buf[off..off + INODE_SIZE] == buf[..][off..off + INODE_SIZE];
    i := Inodes.Decode(no, buf[off..off + INODE_SIZE]);
  }

  /// Read-modify-write of the table block: one block write, one record changed.
  method WriteInode(disk: Disk, sb: SuperBlock, i: Inode)
    requires disk.Valid() && Describes(sb, disk.g) && InTable(disk.g, i.no)
    modifies disk
    ensures disk.Valid()
    ensures V(disk) == old(V(disk)).(s := old(V(disk)).s.SetInode(i))
    ensures disk.hist == old(disk.hist) + [disk.blocks]
  {
    hide Inodes.Encode, Inodes.Decode;
    SlotInTable(disk.g, i.no);
    var block, off := sb.inodeTableStart + i.no / INODES_PER_BLOCK, i.no % INODES_PER_BLOCK * INODE_SIZE;
    var buf := new byte[BLOCK_SIZE](_ => 0);
    disk.ReadBlock(block, buf);
    var data := Inodes.ToBytes(i);
    Inodes.DecodeEncode(i);
    CopyInto(buf, off, data[..]);
    ViewSetInode(disk.blocks, disk.g, i, data[..]);
    disk.WriteBlock(block, buf);
  }

  /// A write to a block of the data area.
  method WriteData(disk: Disk, b: nat, buf: array<byte>)
    requires disk.Valid() && b in V(disk).s.data && buf.Length == BLOCK_SIZE
    modifies disk
    ensures disk.Valid()
    ensures V(disk) == old(V(disk)).(s := old(V(disk)).s.SetData(b, buf[..]))
    ensures disk.hist == old(disk.hist) + [disk.blocks]
  {
    ViewSetData(disk.blocks, disk.g, b, buf[..]);
    disk.WriteBlock(b, buf);
  }

  method ReadData(disk: Disk, b: nat, buf: array<byte>)
    requires disk.Valid() && b in V(disk).s.data && buf.Length == BLOCK_SIZE
    modifies buf
    ensures buf[..] == DataAt(V(disk).s, b)
  {
    disk.ReadBlock(b, buf);
  }

  method GetBlock(disk: Disk, i: Inode, k: nat) returns (r: Option<nat>)
    requires disk.Valid()
    requires k >= DIRECT_BLOCKS && i.indirect != 0 ==> i.indirect in V(disk).s.data
    ensures r == if BlockNo(V(disk).s, i, k) == 0 then None else Some(BlockNo(V(disk).s, i, k))
  {
    var block := 0;
    if k < DIRECT_BLOCKS {
      block := i.direct[k];
    } else if i.indirect != 0 {
      var at := (k - DIRECT_BLOCKS) * 2;
      if at + 2 > PAGE_SIZE {
        return None;
      }
      var buf := new byte[BLOCK_SIZE](_ => 0);
      ReadData(disk, i.indirect, buf);
      assert buf[at..at + 2] == buf[..][at..at + 2];
      block := Read16(buf[at..at + 2]);
    }
    r := if block == 0 then None else Some(block);
  }
}
