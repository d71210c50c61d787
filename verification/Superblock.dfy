/// The superblock record in block 0 (src/superblock.rs).

module Superblock {
  import opened Wrappers
  import opened Bytes
  import opened Device

  type Magic = m: seq<byte> | |m| == 16 witness seq(16, _ => 0)

  datatype SuperBlock = SuperBlock(
    magic: Magic,
    totalBlocks: u32,
    freeBlocks: u32,
    bitmapBlocks: u32,
    inodeTableStart: u32,
    inodeTableBlocks: u32,
    dataStart: u32,
    rootInode: u32)

  // "SIMPLEFS-RUST\0\0\0"
  const MAGIC: Magic :=
    [0x53, 0x49, 0x4D, 0x50, 0x4C, 0x45, 0x46, 0x53, 0x2D, 0x52, 0x55, 0x53, 0x54, 0, 0, 0]

  const SUPER_SIZE: nat := 44

  predicate IsValid(sb: SuperBlock) {
    sb.magic[..13] == MAGIC[..13]
  }

  /// The superblock describes the layout of a disk of geometry g.
  predicate Describes(sb: SuperBlock, g: Geometry) {
    && IsValid(sb)
    && sb.totalBlocks == g.maxBlocks
    && sb.bitmapBlocks == g.BitmapBlocks()
    && sb.inodeTableStart == g.TableStart()
    && sb.inodeTableBlocks == g.tableBlocks
    && sb.dataStart == g.DataStart()
  }

  function Decode(data: seq<byte>): SuperBlock
    requires |data| >= SUPER_SIZE
  {
    SuperBlock(data[0..16], Read32(data[16..20]), Read32(data[20..24]), Read32(data[24..28]),
               Read32(data[28..32]), Read32(data[32..36]), Read32(data[36..40]), Read32(data[40..44]))
  }

  function Encode(sb: SuperBlock): (s: seq<byte>)
    ensures |s| == SUPER_SIZE
  {
    sb.magic + LE32(sb.totalBlocks) + LE32(sb.freeBlocks) + LE32(sb.bitmapBlocks)
    + LE32(sb.inodeTableStart) + LE32(sb.inodeTableBlocks) + LE32(sb.dataStart) + LE32(sb.rootInode)
  }

  /// What write_superblock leaves in block 0.
  function Image(sb: SuperBlock): Block {
    Encode(sb) + Zeros(BLOCK_SIZE - SUPER_SIZE)
  }

  lemma EncodedFields(sb: SuperBlock)
    ensures var s := Encode(sb);
      && s[0..16] == sb.magic
      && s[16..20] == LE32(sb.totalBlocks) && s[20..24] == LE32(sb.freeBlocks)
      && s[24..28] == LE32(sb.bitmapBlocks) && s[28..32] == LE32(sb.inodeTableStart)
      && s[32..36] == LE32(sb.inodeTableBlocks) && s[36..40] == LE32(sb.dataStart)
      && s[40..44] == LE32(sb.rootInode)
  {
  }

  /// `from_bytes` after `to_bytes` returns the record, whatever follows it in the block.
  lemma DecodeEncode(sb: SuperBlock, rest: seq<byte>)
    ensures Decode(Encode(sb) + rest) == sb
  {
    EncodedFields(sb);
    var s := Encode(sb);
    var t := s + rest;
    assert t[0..16] == s[0..16] && t[16..20] == s[16..20] && t[20..24] == s[20..24];
    assert t[24..28] == s[24..28] && t[28..32] == s[28..32] && t[32..36] == s[32..36];
    assert t[36..40] == s[36..40] && t[40..44] == s[40..44];
    Read32Back(sb.totalBlocks);
    Read32Back(sb.freeBlocks);
    Read32Back(sb.bitmapBlocks);
    Read32Back(sb.inodeTableStart);
    Read32Back(sb.inodeTableBlocks);
    Read32Back(sb.dataStart);
    Read32Back(sb.rootInode);
  }

  method ToBytes(sb: SuperBlock) returns (buf: array<byte>)
    ensures fresh(buf) && buf[..] == Encode(sb)
  {
    buf := new byte[SUPER_SIZE](_ => 0);
    CopyInto(buf, 0, sb.magic);
    CopyInto(buf, 16, LE32(sb.totalBlocks));
    CopyInto(buf, 20, LE32(sb.freeBlocks));
    CopyInto(buf, 24, LE32(sb.bitmapBlocks));
    CopyInto(buf, 28, LE32(sb.inodeTableStart));
    CopyInto(buf, 32, LE32(sb.inodeTableBlocks));
    CopyInto(buf, 36, LE32(sb.dataStart));
    CopyInto(buf, 40, LE32(sb.rootInode));
  }

  method WriteSuperblock(disk: Disk, sb: SuperBlock)
    requires disk.Valid()
    modifies disk
    ensures disk.Valid()
    ensures disk.blocks == old(disk.blocks)[0 := Image(sb)]
    ensures disk.hist == old(disk.hist) + [disk.blocks]
  {
    var buf := new byte[BLOCK_SIZE](_ => 0);
    var bytes := ToBytes(sb);
    assert buf[..] == Zeros(512);
    CopyInto(buf, 0, bytes[..]);
    assert buf[..] == Image(sb);
    disk.WriteBlock(0, buf);
  }

  /// None is the panic on a wrong magic number.
  method ReadSuperblock(disk: Disk) returns (r: Option<SuperBlock>)
    requires disk.Valid()
    ensures r == if IsValid(Decode(disk.blocks[0])) then Some(Decode(disk.blocks[0])) else None
  {
    var buf := new byte[BLOCK_SIZE](_ => 0);
    disk.ReadBlock(0, buf);
    var sb := Decode(buf[..]);
    if IsValid(sb) {
      r := Some(sb);
    } else {
      r := None;
    }
  }

  /// The layout arithmetic of init_superblock, with the table size a parameter.
  method InitSuperblock(disk: Disk) returns (sb: SuperBlock)
    requires disk.Valid()
    modifies disk
    ensures disk.Valid()
    ensures Describes(sb, disk.g) && sb.freeBlocks == disk.g.maxBlocks - disk.g.DataStart()
    ensures sb.bitmapBlocks == (sb.totalBlocks + 4095) / 4096 && sb.inodeTableStart == 1 + sb.bitmapBlocks
    ensures sb.dataStart == sb.inodeTableStart + sb.inodeTableBlocks && sb.rootInode == 0
    ensures disk.blocks == old(disk.blocks)[0 := Image(sb)]
    ensures disk.hist == old(disk.hist) + [disk.blocks]
  {
    var bitmapBlocks := (disk.g.maxBlocks + BLOCK_SIZE * 8 - 1) / (BLOCK_SIZE * 8);
    var inodeTableStart := 1 + bitmapBlocks;
    var inodeTableBlocks := disk.g.tableBlocks;
    var dataStart := inodeTableStart + inodeTableBlocks;
    sb := SuperBlock(MAGIC, disk.g.maxBlocks, disk.g.maxBlocks - dataStart, bitmapBlocks,
                     inodeTableStart, inodeTableBlocks, dataStart, 0);
    WriteSuperblock(disk, sb);
  }
}
