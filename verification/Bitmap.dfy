/// The first-fit block allocator over the on-disk bitmap (src/bitmap.rs).

module Bitmap {
  import opened Wrappers
  import opened Bytes
  import opened Device
  import Inodes
  import opened Superblock
  import opened Volume
  import opened Allocator

  /// Byte index and bit mask of a block.
  function Locate(k: nat): (r: (nat, byte))
    ensures r.0 == k / 8 && r.1 == Pow2(k % 8)
  {
    MaskIsByte(k % 8);
    (k / 8, Pow2(k % 8))
  }

  lemma MaskIsByte(j: nat)
    requires j < 8
    ensures 0 < Pow2(j) < 0x100
  {
    Pow2Monotone(j, 7);
    assert Pow2(7) == 0x80;
  }

  /// `byte |= mask` sets one bit and `byte &= !mask` clears it.
  lemma MaskedBit(x: byte, k: nat, j: nat)
    requires k < 8 && j < 8
    ensures Or(x, Pow2(k)) < 0x100 && AndNot(x, Pow2(k)) < 0x100
    ensures Bit(Or(x, Pow2(k)), j) <==> j == k || Bit(x, j)
    ensures Bit(AndNot(x, Pow2(k)), j) <==> j != k && Bit(x, j)
  {
    OrBits(x, Pow2(k), j);
    AndNotBits(x, Pow2(k), j);
    MaskBits(k, j);
    MaskIsByte(k);
    Pow2Of8();
    WidthKept(x, Pow2(k), 8);
  }

  method IsAllocated(disk: Disk, k: nat) returns (r: bool)
    requires disk.Valid()
    ensures r <==> k >= disk.g.maxBlocks || k in V(disk).alloc
  {
    if k >= disk.g.maxBlocks {
      return true;
    }
    var (byteIdx, mask) := Locate(k);
    BitmapFits(disk.g, k);
    var buf := new byte[BLOCK_SIZE](_ => 0);
    disk.ReadBlock(1 + byteIdx / BLOCK_SIZE, buf);
    AndMask(disk.blocks[1 + byteIdx / BLOCK_SIZE][byteIdx % BLOCK_SIZE], k % 8);
    assert buf[..][byteIdx % BLOCK_SIZE] == buf[byteIdx % BLOCK_SIZE];
    r := And(buf[byteIdx % BLOCK_SIZE], mask) != 0;
  }

  /// Two writes: the bitmap block, then the superblock with the new counter.
  method MarkAllocated(disk: Disk, sb: SuperBlock, k: nat) returns (sb': SuperBlock, ghost mid: seq<Block>)
    requires disk.Valid() && k < disk.g.maxBlocks && sb.freeBlocks > 0
    modifies disk
    ensures disk.Valid()
    ensures sb' == sb.(freeBlocks := sb.freeBlocks - 1)
    ensures V(disk) == old(V(disk)).(sb := sb', alloc := old(V(disk)).alloc + {k})
    ensures disk.hist == old(disk.hist) + [mid, disk.blocks]
    ensures Sized(mid, disk.g) && View(mid, disk.g) == old(V(disk)).(alloc := old(V(disk)).alloc + {k})
  {
    var (byteIdx, mask) := Locate(k);
    BitmapFits(disk.g, k);
    var buf := new byte[BLOCK_SIZE](_ => 0);
    disk.ReadBlock(1 + byteIdx / BLOCK_SIZE, buf);
    ghost var x := buf[byteIdx % BLOCK_SIZE];
    assert x == disk.blocks[1 + byteIdx / BLOCK_SIZE][byteIdx % BLOCK_SIZE];
    forall j: nat | j < 8
      ensures Or(x, mask) < 0x100 && (Bit(Or(x, mask), j) <==> j == k % 8 || Bit(x, j))
    {
      MaskedBit(x, k % 8, j);
    }
    MaskedBit(x, k % 8, 0);
    buf[byteIdx % BLOCK_SIZE] := Or(buf[byteIdx % BLOCK_SIZE], mask);
    ViewSetBit(disk.blocks, disk.g, k, Or(x, mask), true);
    disk.WriteBlock(1 + byteIdx / BLOCK_SIZE, buf);
    mid := disk.blocks;
    sb' := sb.(freeBlocks := sb.freeBlocks - 1);
    ViewSetSuper(disk.blocks, disk.g, sb');
    WriteSuperblock(disk, sb');
  }

  method MarkFree(disk: Disk, sb: SuperBlock, k: nat) returns (sb': SuperBlock)
    requires disk.Valid() && k < disk.g.maxBlocks && sb.freeBlocks < 0xFFFF_FFFF
    modifies disk
    ensures disk.Valid()
    ensures sb' == sb.(freeBlocks := sb.freeBlocks + 1)
    ensures V(disk) == old(V(disk)).(sb := sb', alloc := old(V(disk)).alloc - {k})
    ensures k in old(V(disk)).alloc ==>
      Frees(Below(disk.g.maxBlocks) - old(V(disk)).alloc, Below(disk.g.maxBlocks) - V(disk).alloc, k)
    ensures old(disk.hist) <= disk.hist
  {
    var (byteIdx, mask) := Locate(k);
    BitmapFits(disk.g, k);
    var buf := new byte[BLOCK_SIZE](_ => 0);
    disk.ReadBlock(1 + byteIdx / BLOCK_SIZE, buf);
    ghost var x := buf[byteIdx % BLOCK_SIZE];
    assert x == disk.blocks[1 + byteIdx / BLOCK_SIZE][byteIdx % BLOCK_SIZE];
    forall j: nat | j < 8
      ensures AndNot(x, mask) < 0x100 && (Bit(AndNot(x, mask), j) <==> j != k % 8 && Bit(x, j))
    {
      MaskedBit(x, k % 8, j);
    }
    MaskedBit(x, k % 8, 0);
    buf[byteIdx % BLOCK_SIZE] := AndNot(buf[byteIdx % BLOCK_SIZE], mask);
    ViewSetBit(disk.blocks, disk.g, k, AndNot(x, mask), false);
    disk.WriteBlock(1 + byteIdx / BLOCK_SIZE, buf);
    sb' := sb.(freeBlocks := sb.freeBlocks + 1);
    ViewSetSuper(disk.blocks, disk.g, sb');
    WriteSuperblock(disk, sb');
    MarkFreeFrees(old(V(disk)).alloc, disk.g.maxBlocks, k);
  }

  /// All the bits of the bitmap area below position p are set.
  ghost predicate SetBelow(d: seq<Block>, p: nat)
    requires (p + 4095) / 4096 < |d|
  {
    forall k: nat | k < p :: 1 + k / 8 / BLOCK_SIZE < |d| && BitmapBit(d, k)
  }

  lemma Position(idx: nat, off: nat, bit: nat)
    requires off < BLOCK_SIZE && bit < 8
    ensures var k := (idx * BLOCK_SIZE + off) * 8 + bit;
      k / 8 / BLOCK_SIZE == idx && k / 8 % BLOCK_SIZE == off && k % 8 == bit
  {
  }

  lemma SetBelowFullByte(d: seq<Block>, idx: nat, off: nat)
    requires 1 + idx < |d| && off < BLOCK_SIZE
    requires SetBelow(d, (idx * BLOCK_SIZE + off) * 8)
    requires d[1 + idx][off] == 0xFF
    ensures SetBelow(d, (idx * BLOCK_SIZE + off + 1) * 8)
  {
    FullByte(d[1 + idx][off]);
    forall k: nat | (idx * BLOCK_SIZE + off) * 8 <= k < (idx * BLOCK_SIZE + off + 1) * 8
      ensures 1 + k / 8 / BLOCK_SIZE < |d| && BitmapBit(d, k)
    {
      Position(idx, off, k - (idx * BLOCK_SIZE + off) * 8);
      assert Bit(d[1 + idx][off], k % 8);
    }
  }

  /// The least clear bit of a byte that is not full.
  method FirstClearBit(x: byte) returns (bit: nat)
    requires x != 0xFF
    ensures bit < 8 && !Bit(x, bit) && AllSet(x, bit)
  {
    bit := 0;
    while bit < 8
      invariant bit <= 8
      invariant AllSet(x, bit)
    {
      var mask := Pow2(bit);
      AndMask(x, bit);
      if And(x, mask) == 0 {
        return;
      }
      bit := bit + 1;
    }
    FullByte(x);
    assert false;
  }

  lemma LeastClear(d: seq<Block>, idx: nat, off: nat, bit: nat)
    requires 1 + idx < |d| && off < BLOCK_SIZE && bit < 8
    requires SetBelow(d, (idx * BLOCK_SIZE + off) * 8)
    requires !Bit(d[1 + idx][off], bit) && AllSet(d[1 + idx][off], bit)
    ensures var b := (idx * BLOCK_SIZE + off) * 8 + bit;
      SetBelow(d, b) && !BitmapBit(d, b)
  {
    var base := (idx * BLOCK_SIZE + off) * 8;
    forall k: nat | base <= k < base + bit
      ensures 1 + k / 8 / BLOCK_SIZE < |d| && BitmapBit(d, k)
    {
      Position(idx, off, k - base);
      assert Bit(d[1 + idx][off], k % 8);
    }
    Position(idx, off, bit);
  }

  /// The scan of allocate_block: the least clear bit of the bitmap area, if there is one.
  method FindClear(disk: Disk, bitmapBlocks: nat) returns (r: Option<nat>)
    requires disk.Valid() && bitmapBlocks < |disk.blocks|
    ensures r.None? ==> SetBelow(disk.blocks, bitmapBlocks * 4096)
    ensures r.Some? ==>
      && r.value < bitmapBlocks * 4096
      && SetBelow(disk.blocks, r.value) && !BitmapBit(disk.blocks, r.value)
  {
    var buf := new byte[BLOCK_SIZE](_ => 0);
    for idx := 0 to bitmapBlocks
      invariant SetBelow(disk.blocks, idx * 4096)
    {
      disk.ReadBlock(1 + idx, buf);
      for off := 0 to BLOCK_SIZE
        invariant buf[..] == disk.blocks[1 + idx]
        invariant SetBelow(disk.blocks, (idx * BLOCK_SIZE + off) * 8)
      {
        var x := buf[off];
        assert x == disk.blocks[1 + idx][off];
        if x == 0xFF {
          SetBelowFullByte(disk.blocks, idx, off);
          continue;
        }
        var bit := FirstClearBit(x);
        LeastClear(disk.blocks, idx, off, bit);
        return Some((idx * BLOCK_SIZE + off) * 8 + bit);
      }
    }
    return None;
  }

  /// First fit. None leaves the disk alone and means the counter is 0 or no bit below
  /// MAX_BLOCKS is clear; otherwise the block is the least clear one.
  method AllocateBlock(disk: Disk, sb: SuperBlock)
    returns (sb': SuperBlock, r: Option<nat>, ghost mid: seq<Block>)
    requires disk.Valid() && Describes(V(disk).sb, disk.g)
    modifies disk
    ensures disk.Valid()
    ensures r.None? ==>
      && disk.blocks == old(disk.blocks) && disk.hist == old(disk.hist) && sb' == sb
      && (sb.freeBlocks == 0 || forall k: nat | k < disk.g.maxBlocks :: k in old(V(disk)).alloc)
    ensures r.Some? ==>
      && sb.freeBlocks > 0
      && LeastFree(old(V(disk)).alloc, disk.g.maxBlocks, r.value)
      && sb' == sb.(freeBlocks := sb.freeBlocks - 1)
      && V(disk) == old(V(disk)).(sb := sb', alloc := old(V(disk)).alloc + {r.value})
      && disk.hist == old(disk.hist) + [mid, disk.blocks]
      && Sized(mid, disk.g) && View(mid, disk.g) == old(V(disk)).(alloc := old(V(disk)).alloc + {r.value})
  {
    if sb.freeBlocks == 0 {
      return sb, None, [];
    }
    var onDisk := ReadSuperblock(disk);
    var found := FindClear(disk, onDisk.value.bitmapBlocks);
    ScanMeaning(disk.blocks, disk.g, found);
    if found.None? || found.value >= disk.g.maxBlocks {
      return sb, None, [];
    }
    sb', mid := MarkAllocated(disk, sb, found.value);
    r := found;
  }

  lemma ScanMeaning(d: seq<Block>, g: Geometry, found: Option<nat>)
    requires Sized(d, g) && g.BitmapBlocks() < |d|
    requires found.None? ==> SetBelow(d, g.BitmapBlocks() * 4096)
    requires found.Some? ==>
      && found.value < g.BitmapBlocks() * 4096
      && SetBelow(d, found.value) && !BitmapBit(d, found.value)
    ensures found.Some? && found.value < g.maxBlocks ==> LeastFree(AllocSet(d, g), g.maxBlocks, found.value)
    ensures found.None? || found.value >= g.maxBlocks ==>
      forall k: nat | k < g.maxBlocks :: k in AllocSet(d, g)
  {
    var top := if found.Some? then found.value else g.BitmapBlocks() * 4096;
    forall k: nat | k < top && k < g.maxBlocks
      ensures k in AllocSet(d, g)
    {
      assert BitmapBit(d, k);
    }
  }

  // ---------- the allocator as a set of block numbers ----------

  ghost predicate LeastFree(alloc: set<nat>, max: nat, b: nat) {
    b < max && b !in alloc && forall k: nat | k < b :: k in alloc
  }

  /// The cached counter agrees with the bits.
  ghost predicate Counted(free: nat, alloc: set<nat>, max: nat) {
    (forall k | k in alloc :: k < max) && free + |alloc| == max
  }

  /// With a correct counter, no block is free exactly when the counter is 0.
  lemma NoneIffFull(free: nat, alloc: set<nat>, max: nat)
    requires Counted(free, alloc, max)
    ensures free == 0 <==> forall k: nat | k < max :: k in alloc
  {
    BelowSize(max);
    assert alloc <= Below(max);
    SubsetSize(alloc, Below(max));
    if forall k: nat | k < max :: k in alloc {
      assert alloc == Below(max);
    } else {
      var k: nat :| k < max && k !in alloc;
      assert k in Below(max);
    }
  }

  /// Pigeonhole: the first free block is at most the number of blocks in use.
  lemma FirstFitBound(free: nat, alloc: set<nat>, max: nat, b: nat)
    requires Counted(free, alloc, max) && LeastFree(alloc, max, b)
    ensures b <= max - free && 0 < free
  {
    BelowSize(b);
    SubsetSize(Below(b), alloc);
    NoneIffFull(free, alloc, max);
  }

  /// Under the shipped layout the slot of the first directory inode, 500, is block 89;
  /// first fit hands out no block that far while fewer than 90 blocks are in use.
  lemma ShippedFirstFit(free: nat, alloc: set<nat>, b: nat)
    requires Counted(free, alloc, SHIPPED.maxBlocks) && LeastFree(alloc, SHIPPED.maxBlocks, b)
    requires |alloc + {b}| < 90
    ensures b < 89
  {
    FirstFitBound(free, alloc, SHIPPED.maxBlocks, b);
    assert |alloc + {b}| == |alloc| + 1;
  }

  /// First fit over the bitmap is an allocator of the blocks not in use.
  lemma FirstFitAllocates(free: nat, alloc: set<nat>, max: nat, r: Taken)
    requires Counted(free, alloc, max) && (r.NoBlock? <==> free == 0)
    requires r.Block? ==> LeastFree(alloc, max, r.number)
    ensures Allocates(Below(max) - alloc, Below(max) - (if r.Block? then alloc + {r.number} else alloc), r)
  {
    NoneIffFull(free, alloc, max);
    if r.NoBlock? {
      assert Below(max) - alloc == {};
    } else {
      assert r.number in Below(max) - alloc;
      assert Below(max) - (alloc + {r.number}) == Below(max) - alloc - {r.number};
    }
  }

  /// And marking a block in use free gives it back.
  lemma MarkFreeFrees(alloc: set<nat>, max: nat, b: nat)
    requires b < max
    ensures b in alloc ==> Frees(Below(max) - alloc, Below(max) - (alloc - {b}), b)
  {
  }

  lemma CountedAlloc(free: nat, alloc: set<nat>, max: nat, b: nat)
    requires Counted(free, alloc, max) && b < max && b !in alloc
    ensures free > 0 && Counted(free - 1, alloc + {b}, max)
  {
    NoneIffFull(free, alloc, max);
  }

  lemma CountedFree(free: nat, alloc: set<nat>, max: nat, b: nat)
    requires Counted(free, alloc, max) && b in alloc
    ensures Counted(free + 1, alloc - {b}, max)
  {
    assert alloc == (alloc - {b}) + {b};
  }

  // ---------- format ----------

  /// Bit j of byte i is set exactly for the block numbers 8 * i + j below n.
  ghost predicate MarksBelow(bitmap: seq<byte>, n: nat) {
    forall i: nat, j: nat | i < |bitmap| && j < 8 :: Bit(bitmap[i], j) <==> 8 * i + j < n
  }

  lemma MarkNext(bitmap: seq<byte>, n: nat)
    requires MarksBelow(bitmap, n) && n / 8 < |bitmap|
    ensures Or(bitmap[n / 8], Pow2(n % 8)) < 0x100
    ensures MarksBelow(bitmap[n / 8 := Or(bitmap[n / 8], Pow2(n % 8))], n + 1)
  {
    MaskedBit(bitmap[n / 8], n % 8, 0);
    var next := bitmap[n / 8 := Or(bitmap[n / 8], Pow2(n % 8))];
    forall i: nat, j: nat | i < |bitmap| && j < 8
      ensures Bit(next[i], j) <==> 8 * i + j < n + 1
    {
      MaskedBit(bitmap[n / 8], n % 8, j);
    }
  }

  /// Marks the blocks 0 .. n - 1 in a zeroed bitmap.
  method MarkBelow(bitmap: array<byte>, n: nat)
    requires forall i | 0 <= i < bitmap.Length :: bitmap[i] == 0
    modifies bitmap
    ensures MarksBelow(bitmap[..], n)
  {
    forall i: nat, j: nat | i < bitmap.Length && j < 8 ensures !Bit(bitmap[i], j) {
      ZeroHasNoBits(j);
    }
    for k := 0 to n
      invariant MarksBelow(bitmap[..], k)
    {
      var (byteIdx, mask) := Locate(k);
      if byteIdx < bitmap.Length {
        MarkNext(bitmap[..], k);
        bitmap[byteIdx] := Or(bitmap[byteIdx], mask);
      }
    }
  }

  /// Builds the bitmap image with every block before the data area marked and writes it.
  method InitBitmap(disk: Disk, sb: SuperBlock)
    requires disk.Valid() && Describes(sb, disk.g)
    modifies disk
    ensures disk.Valid()
    ensures V(disk) == old(V(disk)).(alloc := Below(disk.g.DataStart()))
    ensures old(disk.hist) <= disk.hist
  {
    var bitmapBlocks := sb.bitmapBlocks;
    var bitmap := new byte[bitmapBlocks * BLOCK_SIZE](_ => 0);
    MarkBelow(bitmap, sb.dataStart);
    for i := 0 to bitmapBlocks
      invariant disk.Valid() && old(disk.hist) <= disk.hist
      invariant MarksBelow(bitmap[..], sb.dataStart)
      invariant BitmapWritten(old(disk.blocks), disk.blocks, bitmap[..], i)
    {
      var buf := new byte[BLOCK_SIZE](_ => 0);
      assert buf[..] == Zeros(512);
      CopyInto(buf, 0, Chunk(bitmap[..], i));
      disk.WriteBlock(1 + i, buf);
    }
    BitmapImage(old(disk.blocks), disk.blocks, disk.g, bitmap[..]);
  }

  function Chunk(bitmap: seq<byte>, i: nat): Block
    requires (i + 1) * BLOCK_SIZE <= |bitmap|
  {
    bitmap[i * BLOCK_SIZE..(i + 1) * BLOCK_SIZE]
  }

  ghost predicate BitmapWritten(d: seq<Block>, d': seq<Block>, bitmap: seq<byte>, n: nat)
    requires n * BLOCK_SIZE <= |bitmap|
  {
    && |d'| == |d|
    && forall b: nat | b < |d'| :: d'[b] == if 1 <= b <= n then Chunk(bitmap, b - 1) else d[b]
  }

  lemma BitmapImage(d: seq<Block>, d': seq<Block>, g: Geometry, bitmap: seq<byte>)
    requires Sized(d, g) && Sized(d', g) && |bitmap| == g.BitmapBlocks() * BLOCK_SIZE
    requires BitmapWritten(d, d', bitmap, g.BitmapBlocks())
    requires MarksBelow(bitmap, g.DataStart())
    ensures View(d', g) == View(d, g).(alloc := Below(g.DataStart()))
  {
    hide MarksBelow, Bit, Inodes.Decode, Superblock.Decode;
    forall k: nat | k < g.maxBlocks
      ensures 1 + k / 8 / BLOCK_SIZE < |d'| && (BitmapBit(d', k) <==> k < g.DataStart())
    {
      ImageBit(d, d', g, bitmap, k);
    }
    assert AllocSet(d', g) == Below(g.DataStart());
    assert forall b: nat | g.TableStart() <= b < |d| :: d'[b] == d[b];
    SameTable(d, d', g);
    assert View(d', g).s.data == View(d, g).s.data;
  }

  lemma ImageBit(d: seq<Block>, d': seq<Block>, g: Geometry, bitmap: seq<byte>, k: nat)
    requires Sized(d, g) && Sized(d', g) && |bitmap| == g.BitmapBlocks() * BLOCK_SIZE
    requires BitmapWritten(d, d', bitmap, g.BitmapBlocks())
    requires MarksBelow(bitmap, g.DataStart()) && k < g.maxBlocks
    ensures 1 + k / 8 / BLOCK_SIZE < |d'| && (BitmapBit(d', k) <==> k < g.DataStart())
  {
    BitmapFits(g, k);
    var m := k / 8 / BLOCK_SIZE;
    assert d'[1 + m] == Chunk(bitmap, m);
    assert Chunk(bitmap, m)[k / 8 % BLOCK_SIZE] == bitmap[k / 8];
    assert Bit(bitmap[k / 8], k % 8) <==> k < g.DataStart();
  }
}
