/// The loops of `write` and `read` (src/fs.rs:224-254, 454-512).

module FileIO {
  import opened Wrappers
  import opened Bytes
  import opened Device
  import opened Superblock
  import opened Inodes
  import opened Volume
  import opened Allocator
  import opened Bitmap
  import opened InodeTable
  import opened Ownership
  import opened FileData
  import opened Namespace
  import opened DirView
  import opened Invariant
  import opened Growth

  datatype GrowResult = Grew | NoSpace | GrowPanic

  /// How many blocks a file of k blocks needs to have r: one more when the indirect block
  /// is first used.
  function BlocksNeeded(k: nat, r: nat): nat {
    if r <= k then 0 else r - k + if k <= DIRECT_BLOCKS < r then 1 else 0
  }

  /// The answer of the grow loop. It panics exactly when the free blocks end between the
  /// eleventh block and the indirect block for it.
  function GrowAnswer(free: nat, k: nat, r: nat): GrowResult {
    if free >= BlocksNeeded(k, r) then Grew
    else if k <= DIRECT_BLOCKS < r && free == DIRECT_BLOCKS + 1 - k then GrowPanic
    else NoSpace
  }

  /// What the two say in numbers.
  lemma GrowAnswerSays(free: nat, k: nat, r: nat)
    ensures BlocksNeeded(k, r) == if r <= k then 0 else if k <= 10 < r then r - k + 1 else r - k
    ensures GrowAnswer(free, k, r) == Grew <==> free >= BlocksNeeded(k, r)
    ensures GrowAnswer(free, k, r) == GrowPanic <==> k <= 10 < r && free == 11 - k
  {
  }

  /// Between two rounds of the loop.
  ghost predicate GrowInv(v0: Vol, v: Vol, g: Geometry, i: Inode) {
    && Growing(v0, v, i) && Describes(v.sb, g) && Counted(v.sb.freeBlocks, v.alloc, g.maxBlocks)
    && Below(g.DataStart()) <= v.alloc
  }

  /// The loop stopped short: what is on disk reads as before, some blocks are marked.
  ghost predicate Stuck(v0: Vol, v: Vol, g: Geometry) {
    && Frame(v0.s, v.s, {}) && v0.alloc <= v.alloc
    && Describes(v.sb, g) && Counted(v.sb.freeBlocks, v.alloc, g.maxBlocks)
    && v.sb == v0.sb.(freeBlocks := v.sb.freeBlocks)
  }

  lemma GrowAccounted(v0: Vol, v: Vol, g: Geometry, i: Inode)
    requires GrowInv(v0, v, g, i)
    ensures Accounted(v, g) && Frame(v0.s, v.s, {}) && v0.alloc <= v.alloc
    ensures forall b | b in v.s.data && b !in v.alloc :: Unheld(Pending(v, i), b)
    ensures i.indirect != 0 ==> i.indirect in v.s.data && i.indirect in v.alloc
    ensures i.no < |v.s.inodes| && RegularFile(v0, i.no)
  {
    RecordKept(v0, v, i);
    assert i.indirect != 0 ==> Holds(Pending(v, i), i.no, INDIRECT_SLOT);
  }

  method ZeroBlock(disk: Disk, b: nat)
    requires disk.Valid() && b in V(disk).s.data
    modifies disk
    ensures disk.Valid() && disk.hist == old(disk.hist) + [disk.blocks]
    ensures V(disk) == old(V(disk)).(s := old(V(disk)).s.SetData(b, Zeros(BLOCK_SIZE)))
  {
    hide View;
    var buf := new byte[BLOCK_SIZE](_ => 0);
    assert buf[..] == Zeros(BLOCK_SIZE);
    WriteData(disk, b, buf);
  }

  /// One more state of the disk in which every inode reads as before.
  lemma StageMore(v0: Vol, g: Geometry, hist: seq<seq<Block>>, from: nat, n: nat, d: seq<Block>)
    requires RegularFile(v0, n) && Staged(g, hist, from, v0, n, File, File) && Sized(d, g)
    requires Frame(v0.s, View(d, g).s, {}) && v0.alloc <= View(d, g).alloc
    ensures Staged(g, hist + [d], from, v0, n, File, File)
  {
    hide View, RegularFile, Changed, Staged, Frame;
    GrowStage(v0, View(d, g), n);
    StagedMore(g, hist, from, v0, n, File, File, d);
  }

  /// The branch for blocks 0 to 9.
  method AttachDirect(disk: Disk, i: Inode, b: u32, ghost v0: Vol, ghost v: Vol, ghost from: nat) returns (i': Inode)
    requires disk.Valid() && GrowInv(v0, v, disk.g, i) && Reserved(v, V(disk), disk.g, b)
    requires i.blockCount < DIRECT_BLOCKS
    requires Staged(disk.g, disk.hist, from, v0, i.no, File, File)
    modifies disk
    ensures disk.Valid() && old(disk.hist) <= disk.hist
    ensures GrowInv(v0, V(disk), disk.g, i') && i'.no == i.no && i'.blockCount == i.blockCount + 1
    ensures V(disk).sb == old(V(disk)).sb
    ensures Staged(disk.g, disk.hist, from, v0, i.no, File, File)
  {
    hide View, Growing, Frame, Staged, Owns, RegularFile, Unheld;
    GrowAccounted(v0, v, disk.g, i);
    i' := i.(direct := i.direct[i.blockCount as int := b]);
    ghost var h := disk.hist;
    ZeroBlock(disk, b);
    i' := i'.(blockCount := i'.blockCount + 1);
    StepDirect(v0, v, V(disk), i, b);
    GrowAccounted(v0, V(disk), disk.g, i');
    StageMore(v0, disk.g, h, from, i.no, disk.blocks);
  }

  /// The branch for blocks 11 to 19: the pointer goes into the indirect block.
  method AttachPointer(disk: Disk, i: Inode, b: u32, ghost v0: Vol, ghost v: Vol, ghost from: nat) returns (i': Inode)
    requires disk.Valid() && GrowInv(v0, v, disk.g, i) && Reserved(v, V(disk), disk.g, b)
    requires DIRECT_BLOCKS < i.blockCount < MAX_FILE_BLOCKS
    requires Staged(disk.g, disk.hist, from, v0, i.no, File, File)
    modifies disk
    ensures disk.Valid() && old(disk.hist) <= disk.hist
    ensures GrowInv(v0, V(disk), disk.g, i') && i'.no == i.no && i'.blockCount == i.blockCount + 1
    ensures V(disk).sb == old(V(disk)).sb
    ensures Staged(disk.g, disk.hist, from, v0, i.no, File, File)
  {
    hide View, Growing, Frame, Staged, Owns, RegularFile, Unheld, Splice, LE16, DataAt, Pending, Counted, HeldIn,
         Accounted, Below;
    GrowAccounted(v0, v, disk.g, i);
    PointerOnDisk(v0, v, i, b);
    var at := i.blockCount - DIRECT_BLOCKS;
    var buf := new byte[BLOCK_SIZE](_ => 0);
    ReadData(disk, i.indirect, buf);
    CopyInto(buf, at * 2, LE16(b));
    ghost var h1 := disk.hist;
    WriteData(disk, i.indirect, buf);
    FrameTrans(v0.s, v.s, V(disk).s, {}, {}, {});
    StageMore(v0, disk.g, h1, from, i.no, disk.blocks);
    ghost var h2 := disk.hist;
    ZeroBlock(disk, b);
    i' := i.(blockCount := i.blockCount + 1);
    StepPointer(v0, v, V(disk), i, b);
    GrowAccounted(v0, V(disk), disk.g, i');
    StageMore(v0, disk.g, h2, from, i.no, disk.blocks);
  }

  /// allocate_block inside the loop.
  method ReserveForFile(disk: Disk, sb: SuperBlock, n: nat, ghost v0: Vol, ghost from: nat)
    returns (sb': SuperBlock, r: Option<nat>)
    requires disk.Valid() && Accounted(V(disk), disk.g) && V(disk).sb == sb
    requires RegularFile(v0, n) && Frame(v0.s, V(disk).s, {}) && v0.alloc <= V(disk).alloc
    requires Staged(disk.g, disk.hist, from, v0, n, File, File)
    modifies disk
    ensures disk.Valid() && old(disk.hist) <= disk.hist
    ensures Staged(disk.g, disk.hist, from, v0, n, File, File)
    ensures r.Some? <==> sb.freeBlocks > 0
    ensures r.None? ==> V(disk) == old(V(disk)) && sb' == sb
    ensures r.Some? ==>
      Reserved(old(V(disk)), V(disk), disk.g, r.value) && V(disk).sb == sb' && Accounted(V(disk), disk.g)
  {
    hide View, Frame, Staged, Accounted, RegularFile;
    ghost var h, v, mid := disk.hist, V(disk), [];
    sb', r, mid := ReserveBlock(disk, sb);
    if r.Some? {
      StageMore(v0, disk.g, h, from, n, mid);
      StageMore(v0, disk.g, h + [mid], from, n, disk.blocks);
      assert h + [mid] + [disk.blocks] == disk.hist;
    }
  }

  /// The branch for block 10: a second allocation, for the indirect block. False is the
  /// panic of its `expect`.
  method AttachIndirect(disk: Disk, sb: SuperBlock, i: Inode, b: u32, ghost v0: Vol, ghost v: Vol, ghost from: nat)
    returns (sb': SuperBlock, i': Inode, ok: bool)
    requires disk.Valid() && GrowInv(v0, v, disk.g, i) && Reserved(v, V(disk), disk.g, b)
    requires i.blockCount == DIRECT_BLOCKS
    requires V(disk).sb == sb && Accounted(V(disk), disk.g)
    requires Staged(disk.g, disk.hist, from, v0, i.no, File, File)
    modifies disk
    ensures disk.Valid() && old(disk.hist) <= disk.hist && V(disk).sb == sb'
    ensures Staged(disk.g, disk.hist, from, v0, i.no, File, File)
    ensures ok <==> sb.freeBlocks > 0
    ensures ok ==> GrowInv(v0, V(disk), disk.g, i') && i'.no == i.no && i'.blockCount == i.blockCount + 1
    ensures ok ==> sb' == sb.(freeBlocks := sb.freeBlocks - 1)
    ensures !ok ==> V(disk) == old(V(disk)) && sb' == sb
  {
    hide View, Growing, Frame, Staged, Owns, RegularFile, Unheld, Splice, LE16, DataAt, Pending, HeldIn, Below,
         Counted, Accounted;
    GrowAccounted(v0, v, disk.g, i);
    var r: Option<nat>;
    sb', r := ReserveForFile(disk, sb, i.no, v0, from);
    if r.None? {
      return sb', i, false;
    }
    var c := r.value;
    i' := i.(indirect := c);
    var buf := new byte[BLOCK_SIZE](_ => 0);
    assert buf[..] == Zeros(BLOCK_SIZE);
    CopyInto(buf, 0, LE16(b));
    ghost var h1 := disk.hist;
    WriteData(disk, c, buf);
    AccountedParts(v, disk.g);
    WriteUnheld(v.s, c, buf[..]);
    FrameTrans(v0.s, v.s, V(disk).s, {}, {}, {});
    StageMore(v0, disk.g, h1, from, i.no, disk.blocks);
    ghost var h2 := disk.hist;
    ZeroBlock(disk, b);
    i' := i'.(blockCount := i'.blockCount + 1);
    StepIndirect(v0, v, V(disk), i, b, c);
    GrowAccounted(v0, V(disk), disk.g, i');
    StageMore(v0, disk.g, h2, from, i.no, disk.blocks);
    ok := true;
  }

  lemma GrowStuck(v0: Vol, v: Vol, v': Vol, g: Geometry, i: Inode)
    requires GrowInv(v0, v, g, i) && v'.s == v.s && v.alloc <= v'.alloc
    requires Describes(v'.sb, g) && Counted(v'.sb.freeBlocks, v'.alloc, g.maxBlocks)
    requires v'.sb == v0.sb.(freeBlocks := v'.sb.freeBlocks)
    ensures Stuck(v0, v', g)
  {
    hide ByteAt, HeldSet, Counted;
  }

  /// The loop that brings a file to the required number of blocks.
  method GrowFile(disk: Disk, sb: SuperBlock, i: Inode, required: nat)
    returns (sb': SuperBlock, i': Inode, r: GrowResult)
    requires disk.Valid() && Accounted(V(disk), disk.g) && V(disk).sb == sb
    requires RegularFile(V(disk), i.no) && V(disk).s.inodes[i.no] == i && required <= MAX_FILE_BLOCKS
    modifies disk
    ensures disk.Valid() && old(disk.hist) <= disk.hist && V(disk).sb == sb'
    ensures r == GrowAnswer(sb.freeBlocks, i.blockCount, required)
    ensures var k := i.blockCount;
      var need := if required <= k then 0 else if k <= 10 < required then required - k + 1 else required - k;
      && (r == Grew <==> sb.freeBlocks >= need)
      && (r == GrowPanic <==> k <= 10 < required && sb.freeBlocks == 11 - k)
      && (r == Grew ==> sb' == sb.(freeBlocks := sb.freeBlocks - need))
    ensures r == Grew ==>
      && GrowInv(old(V(disk)), V(disk), disk.g, i') && i'.no == i.no
      && i'.blockCount == (if i.blockCount < required then required else i.blockCount)
      && sb' == sb.(freeBlocks := sb.freeBlocks - BlocksNeeded(i.blockCount, required))
    ensures r != Grew ==> Stuck(old(V(disk)), V(disk), disk.g) && sb'.freeBlocks == 0
    ensures Staged(disk.g, disk.hist, old(|disk.hist|), old(V(disk)), i.no, File, File)
  {
    hide View, Growing, Frame, Staged, Owns, RegularFile, Unheld, Pending, HeldIn, Below, Counted, Accounted, Held;
    ghost var v0, from := V(disk), |disk.hist|;
    GrowBegin(v0, disk.g, i);
    StagedNone(disk.g, disk.hist, v0, i.no);
    GrowAnswerSays(sb.freeBlocks, i.blockCount, required);
    sb', i' := sb, i;
    while i'.blockCount < required
      invariant disk.Valid() && old(disk.hist) <= disk.hist && V(disk).sb == sb'
      invariant GrowInv(v0, V(disk), disk.g, i') && i'.no == i.no
      invariant i.blockCount <= i'.blockCount && (i'.blockCount <= required || i'.blockCount == i.blockCount)
      invariant BlocksNeeded(i.blockCount, i'.blockCount) <= sb.freeBlocks
      invariant sb' == sb.(freeBlocks := sb.freeBlocks - BlocksNeeded(i.blockCount, i'.blockCount))
      invariant Staged(disk.g, disk.hist, from, v0, i.no, File, File)
      decreases required - i'.blockCount
    {
      ghost var v := V(disk);
      GrowAccounted(v0, v, disk.g, i');
      var newBlock: Option<nat>;
      sb', newBlock := ReserveForFile(disk, sb', i.no, v0, from);
      if newBlock.None? {
        GrowStuck(v0, v, V(disk), disk.g, i');
        return sb', i', NoSpace;
      }
      if i'.blockCount < DIRECT_BLOCKS {
        i' := AttachDirect(disk, i', newBlock.value, v0, v, from);
      } else if i'.blockCount == DIRECT_BLOCKS {
        var ok;
        ghost var v1 := V(disk);
        var before := i';
        sb', i', ok := AttachIndirect(disk, sb', i', newBlock.value, v0, v, from);
        if !ok {
          GrowStuck(v0, v, v1, disk.g, before);
          return sb', before, GrowPanic;
        }
      } else {
        i' := AttachPointer(disk, i', newBlock.value, v0, v, from);
      }
    }
    r := Grew;
  }

  lemma GrowBegin(v: Vol, g: Geometry, i: Inode)
    requires Accounted(v, g) && RegularFile(v, i.no) && v.s.inodes[i.no] == i
    ensures GrowInv(v, v, g, i) && i.blockCount <= MAX_FILE_BLOCKS
  {
    hide ByteAt, HeldSet, Counted, Growing;
    assert Shape(i);
    GrowStart(v, i.no);
  }

  // ---------- copying ----------

  lemma NextPage(q: nat, len: nat)
    requires q % PAGE_SIZE + len <= PAGE_SIZE
    ensures q % PAGE_SIZE + len == PAGE_SIZE ==>
      (q + len) / PAGE_SIZE == q / PAGE_SIZE + 1 && (q + len) % PAGE_SIZE == 0
  {
  }

  lemma PageBelow(q: nat, top: nat, k: nat)
    requires q < top && PagesFor(top) <= k
    ensures q / PAGE_SIZE < k
  {
    assert (top + PAGE_SIZE - 1) / PAGE_SIZE == (top - 1) / PAGE_SIZE + 1;
  }

  /// One round: the piece of data that fits on the page under the cursor.
  method CopyPiece(disk: Disk, i: Inode, offset: nat, data: seq<byte>, done: nat, block: nat, at: nat, len: nat,
                   ghost v0: Vol, ghost from: nat)
    requires disk.Valid() && Writing(v0, V(disk), i, offset, data, done) && done + len <= |data|
    requires (offset + done) / PAGE_SIZE < i.blockCount && at == (offset + done) % PAGE_SIZE && at + len <= PAGE_SIZE
    requires block == BlockNo(V(disk).s, i, (offset + done) / PAGE_SIZE) && block in V(disk).s.data
    requires Staged(disk.g, disk.hist, from, v0, i.no, File, File)
    modifies disk
    ensures disk.Valid() && old(disk.hist) <= disk.hist
    ensures V(disk).sb == old(V(disk)).sb && V(disk).alloc == old(V(disk)).alloc
    ensures Writing(v0, V(disk), i, offset, data, done + len)
    ensures Staged(disk.g, disk.hist, from, v0, i.no, File, File)
  {
    hide View, Staged, Splice, DataAt, BlockNo, Writing, Changed;
    ghost var v, h := V(disk), disk.hist;
    var buf := new byte[BLOCK_SIZE](_ => 0);
    ReadData(disk, block, buf);
    CopyInto(buf, at, data[done..done + len]);
    WriteData(disk, block, buf);
    WriteStep(v0, v, V(disk), i, offset, data, done, len);
    WritingStage(v0, V(disk), i, offset, data, done + len);
    StagedMore(disk.g, h, from, v0, i.no, File, File, disk.blocks);
  }

  lemma WritingStage(v0: Vol, v: Vol, i: Inode, offset: nat, data: seq<byte>, done: nat)
    requires Writing(v0, v, i, offset, data, done)
    ensures Changed(v0, v, i.no, File)
  {
  }

  /// The copy loop of write; the `expect` in it never fires.
  method CopyData(disk: Disk, i: Inode, offset: nat, data: seq<byte>, ghost v0: Vol, ghost from: nat)
    requires disk.Valid() && Writing(v0, V(disk), i, offset, data, 0) && PagesFor(offset + |data|) <= i.blockCount
    requires Staged(disk.g, disk.hist, from, v0, i.no, File, File)
    modifies disk
    ensures disk.Valid() && old(disk.hist) <= disk.hist
    ensures V(disk).sb == old(V(disk)).sb && V(disk).alloc == old(V(disk)).alloc
    ensures Writing(v0, V(disk), i, offset, data, |data|)
    ensures Staged(disk.g, disk.hist, from, v0, i.no, File, File)
  {
    hide View, Staged, Splice, DataAt, BlockNo, Writing, PagesFor;
    var remaining := |data|;
    var blockIndex := offset / PAGE_SIZE;
    var blockOffset := offset % PAGE_SIZE;
    var dataOffset := 0;
    while remaining > 0
      invariant disk.Valid() && old(disk.hist) <= disk.hist
      invariant V(disk).sb == old(V(disk)).sb && V(disk).alloc == old(V(disk)).alloc
      invariant remaining + dataOffset == |data| && remaining >= 0
      invariant remaining > 0 ==>
        blockIndex == (offset + dataOffset) / PAGE_SIZE && blockOffset == (offset + dataOffset) % PAGE_SIZE
      invariant Writing(v0, V(disk), i, offset, data, dataOffset)
      invariant Staged(disk.g, disk.hist, from, v0, i.no, File, File)
    {
      PageBelow(offset + dataOffset, offset + |data|, i.blockCount);
      CursorBlock(v0, V(disk), i, offset, data, dataOffset, blockIndex);
      var block := GetBlock(disk, i, blockIndex);
      var toWrite := Min(remaining, PAGE_SIZE - blockOffset);
      CopyPiece(disk, i, offset, data, dataOffset, block.value, blockOffset, toWrite, v0, from);
      NextPage(offset + dataOffset, toWrite);
      remaining := remaining - toWrite;
      dataOffset := dataOffset + toWrite;
      blockIndex := blockIndex + 1;
      blockOffset := 0;
    }
  }

  // ---------- reading ----------

  lemma FileBlock(v: Vol, n: nat, p: nat)
    requires RegularFile(v, n) && FileOk(v.s, v.s.inodes[n]) && p < v.s.inodes[n].size
    ensures var i := v.s.inodes[n]; var b := BlockNo(v.s, i, p / PAGE_SIZE);
      && b in v.s.data && b != 0 && (i.indirect != 0 ==> i.indirect in v.s.data)
  {
    hide ByteAt;
    var i, k := v.s.inodes[n], p / PAGE_SIZE;
    assert k < i.blockCount;
    assert Holds(v.s, n, k) && Held(v.s, n, k) in v.s.data;
    assert Shape(i);
    assert i.indirect != 0 ==> Holds(v.s, n, INDIRECT_SLOT);
  }

  lemma ReadPiece(s: Store, i: Inode, q: nat, len: nat)
    requires q % PAGE_SIZE + len <= PAGE_SIZE
    ensures forall p | q <= p < q + len ::
      ByteAt(s, i, p) == DataAt(s, BlockNo(s, i, q / PAGE_SIZE))[q % PAGE_SIZE + (p - q)]
  {
    forall p | q <= p < q + len
      ensures ByteAt(s, i, p) == DataAt(s, BlockNo(s, i, q / PAGE_SIZE))[q % PAGE_SIZE + (p - q)]
    {
      assert p / PAGE_SIZE == q / PAGE_SIZE && p % PAGE_SIZE == q % PAGE_SIZE + (p - q);
    }
  }

  /// The loop of read: a slice of the file, cut off at its end.
  method ReadFile(disk: Disk, i: Inode, offset: nat, size: nat) returns (out: seq<byte>)
    requires disk.Valid() && RegularFile(V(disk), i.no) && V(disk).s.inodes[i.no] == i && FileOk(V(disk).s, i)
    ensures var c := Content(V(disk).s, i.no);
      out == if offset >= |c| then [] else c[offset..Min(offset + size, |c|)]
  {
    hide View, RegularFile, FileOk, ByteAt, BlockNo, DataAt;
    if offset >= i.size {
      return [];
    }
    var actual := Min(size, i.size - offset);
    var result := new byte[actual](_ => 0);
    var remaining, copied := actual, 0;
    var blockIndex := offset / PAGE_SIZE;
    var blockOffset := offset % PAGE_SIZE;
    var buf := new byte[BLOCK_SIZE](_ => 0);
    ghost var s := V(disk).s;
    while remaining > 0
      invariant remaining + copied == actual && 0 <= copied <= actual
      invariant remaining > 0 ==>
        blockIndex == (offset + copied) / PAGE_SIZE && blockOffset == (offset + copied) % PAGE_SIZE
      invariant forall j | 0 <= j < copied :: result[j] == ByteAt(s, i, offset + j)
    {
      ghost var q := offset + copied;
      FileBlock(V(disk), i.no, q);
      var block := GetBlock(disk, i, blockIndex);
      if block.None? {
        break;
      }
      ReadData(disk, block.value, buf);
      var toCopy := Min(remaining, PAGE_SIZE - blockOffset);
      ReadPiece(s, i, q, toCopy);
      ghost var before := result[..];
      CopyInto(result, copied, buf[blockOffset..blockOffset + toCopy]);
      forall j | 0 <= j < copied + toCopy
        ensures result[j] == ByteAt(s, i, offset + j)
      {
        if j < copied {
          assert result[..][j] == before[j];
        } else {
          assert result[..][j] == DataAt(s, block.value)[blockOffset + (j - copied)];
          assert ByteAt(s, i, offset + j) == DataAt(s, block.value)[blockOffset + (offset + j - q)];
        }
      }
      NextPage(q, toCopy);
      copied := copied + toCopy;
      remaining := remaining - toCopy;
      blockIndex := blockIndex + 1;
      blockOffset := 0;
    }
    out := result[..copied];
  }
}
