/// The block device: an array of 512-byte blocks with whole-block reads and writes.

module Device {
  import opened Bytes

  /// The two sizes the layout is computed from: MAX_BLOCKS (src/disk.rs:17) and the
  /// number of inode table blocks (src/superblock.rs:93).
  datatype Geometry = Geometry(maxBlocks: nat, tableBlocks: nat) {
    // One bit per block, 4096 bits per bitmap block, starting at block 1.
    function BitmapBlocks(): nat {
      (maxBlocks + BLOCK_SIZE * 8 - 1) / (BLOCK_SIZE * 8)
    }

    function TableStart(): nat {
      1 + BitmapBlocks()
    }

    function DataStart(): nat {
      TableStart() + tableBlocks
    }

    /// Blocks fit the u16 pointers of an indirect block and the layout leaves a data
    /// area; the table holds at least the root directory.
    predicate Ok() {
      maxBlocks <= 0x1_0000 && 1 <= tableBlocks && DataStart() < maxBlocks
    }
  }

  const SHIPPED := Geometry(20480, 25)

  class Disk {
    const g: Geometry
    var blocks: seq<Block>
    /// Every state of the medium so far, one per block write, the latest last.
    ghost var hist: seq<seq<Block>>

    ghost predicate Valid()
      reads this
    {
      g.Ok() && |blocks| == g.maxBlocks
    }

    /// A disk image just extended by ftruncate: all zero.
    constructor (g: Geometry)
      requires g.Ok()
      ensures Valid() && this.g == g && hist == []
      ensures blocks == seq(g.maxBlocks, _ => Zeros(512))
    {
      this.g := g;
      blocks := seq(g.maxBlocks, _ => Zeros(512));
      hist := [];
    }

    method ReadBlock(n: nat, buf: array<byte>)
      requires Valid() && n < |blocks| && buf.Length == BLOCK_SIZE
      modifies buf
      ensures buf[..] == blocks[n]
    {
      for i := 0 to BLOCK_SIZE
        invariant buf[..i] == blocks[n][..i]
      {
        buf[i] := blocks[n][i];
      }
    }

    method WriteBlock(n: nat, buf: array<byte>)
      requires Valid() && n < |blocks| && buf.Length == BLOCK_SIZE
      modifies this
      ensures Valid()
      ensures blocks == old(blocks)[n := buf[..]]
      ensures hist == old(hist) + [blocks]
    {
      blocks := blocks[n := buf[..]];
      hist := hist + [blocks];
    }
  }

  /// `buf[off..off + data.len()].copy_from_slice(data)` in place.
  method CopyInto(buf: array<byte>, off: nat, data: seq<byte>)
    requires off + |data| <= buf.Length
    modifies buf
    ensures buf[..] == Splice(old(buf[..]), off, data)
  {
    for i := 0 to |data|
      invariant forall k | 0 <= k < buf.Length ::
        buf[k] == if off <= k < off + i then data[k - off] else old(buf[k])
    {
      buf[off + i] := data[i];
    }
  }
}
